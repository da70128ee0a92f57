/**
 * The value layer shared by the two line-based text buffers: a text is its
 * lines (at least one), a `Size` or `Position` is a (line, column) pair, and
 * every edit is defined here once through three primitive cuts: taking a
 * prefix of a given size, skipping it, and concatenating two texts so that
 * the last line of the first joins the first line of the second (`+=`).
 */
module TextLines {
  type Line = seq<char>
  type Lines = seq<Line>

  /** The extent of a text: whole lines crossed, then columns on the last line. */
  datatype Size = Size(line: nat, column: nat)

  /** A place in a text. */
  datatype Position = Position(line: nat, column: nat)

  /** `mace::range::Range`. */
  datatype Range = Range(start: Position, end: Position)

  /** One step of a delta. */
  datatype Operation = Retain(count: Size) | Insert(text: Lines) | Delete(count: Size)

  type Delta = seq<Operation>

  /** The shape every text keeps: at least one line, so `len` and `+=` have a last line to use. */
  predicate WellFormed(ls: Lines)
  {
    |ls| >= 1
  }

  function Origin(): Position
  {
    Position(0, 0)
  }

  function AsSize(p: Position): Size
  {
    Size(p.line, p.column)
  }

  /** `Size::is_zero`. */
  predicate IsZero(n: Size)
  {
    n.line == 0 && n.column == 0
  }

  /** `Text::len`: the number of line breaks, and the length of the last line. */
  function LenOf(ls: Lines): Size
    requires WellFormed(ls)
  {
    Size(|ls| - 1, |ls[|ls| - 1]|)
  }

  /** The size of a text followed by another, as `+=` joins them. */
  function SizeSum(a: Size, b: Size): Size
  {
    if b.line == 0 then Size(a.line, a.column + b.column) else Size(a.line + b.line, b.column)
  }

  /** A prefix of size `n` exists: its last line is a line of the text and the column is within it. */
  predicate Fits(ls: Lines, n: Size)
  {
    n.line < |ls| && n.column <= |ls[n.line]|
  }

  /** The first `n` of a text. */
  function Taken(ls: Lines, n: Size): (r: Lines)
    requires Fits(ls, n)
    ensures WellFormed(r)
  {
    ls[..n.line] + [ls[n.line][..n.column]]
  }

  /** What is left after the first `n` of a text. */
  function Skipped(ls: Lines, n: Size): (r: Lines)
    requires Fits(ls, n)
    ensures WellFormed(r) && |r| == |ls| - n.line
  {
    [ls[n.line][n.column..]] + ls[n.line + 1..]
  }

  /** `Text += Text`: the first line of `b` extends the last line of `a`; the rest of `b` follows. */
  function Concat(a: Lines, b: Lines): (r: Lines)
    requires WellFormed(a) && WellFormed(b)
    ensures WellFormed(r) && |r| == |a| + |b| - 1
  {
    a[..|a| - 1] + [a[|a| - 1] + b[0]] + b[1..]
  }

  // ---------------------------------------------------------------------
  // The algebra of the three cuts
  // ---------------------------------------------------------------------

  /** Only the empty text has size zero. */
  lemma ZeroIffEmpty(ls: Lines)
    requires WellFormed(ls)
    ensures IsZero(LenOf(ls)) <==> ls == [[]]
  {
    if IsZero(LenOf(ls)) {
      assert ls == [ls[0]] && ls[0] == [];
    }
  }

  /** The prefix of size `n` has size `n`. */
  lemma LenOfTaken(ls: Lines, n: Size)
    requires Fits(ls, n)
    ensures LenOf(Taken(ls, n)) == n
  {
  }

  /** Taking a prefix and putting the rest back after it restores the text. */
  lemma TakeSkipConcat(ls: Lines, n: Size)
    requires Fits(ls, n)
    ensures Concat(Taken(ls, n), Skipped(ls, n)) == ls
  {
    var t, s := Taken(ls, n), Skipped(ls, n);
    assert t[..|t| - 1] == ls[..n.line];
    assert t[|t| - 1] + s[0] == ls[n.line];
    assert s[1..] == ls[n.line + 1..];
    assert ls == ls[..n.line] + [ls[n.line]] + ls[n.line + 1..];
  }

  /** The whole size of a text fits it, and taking it takes everything. */
  lemma TakeAll(ls: Lines)
    requires WellFormed(ls)
    ensures Fits(ls, LenOf(ls))
    ensures Taken(ls, LenOf(ls)) == ls
    ensures Skipped(ls, LenOf(ls)) == [[]]
  {
    var k := |ls| - 1;
    assert ls[k][..|ls[k]|] == ls[k] && ls[k][|ls[k]|..] == [];
    assert ls == ls[..k] + [ls[k]];
    assert ls[k + 1..] == [];
  }

  /** Cutting a concatenation at the size of its first part gives back both parts. */
  lemma CutConcat(a: Lines, b: Lines)
    requires WellFormed(a) && WellFormed(b)
    ensures Fits(Concat(a, b), LenOf(a))
    ensures Taken(Concat(a, b), LenOf(a)) == a
    ensures Skipped(Concat(a, b), LenOf(a)) == b
  {
    var c := Concat(a, b);
    var k := |a| - 1;
    assert c[k] == a[k] + b[0];
    assert c[..k] == a[..k];
    assert c[k][..|a[k]|] == a[k];
    assert a == a[..k] + [a[k]];
    assert c[k][|a[k]|..] == b[0];
    assert c[k + 1..] == b[1..];
    assert b == [b[0]] + b[1..];
  }

  /** The size of a concatenation is the sum of the sizes. */
  lemma LenOfConcat(a: Lines, b: Lines)
    requires WellFormed(a) && WellFormed(b)
    ensures LenOf(Concat(a, b)) == SizeSum(LenOf(a), LenOf(b))
  {
    var c := Concat(a, b);
    if |b| == 1 {
      assert c[|c| - 1] == a[|a| - 1] + b[0];
    } else {
      assert c[|c| - 1] == b[|b| - 1];
    }
  }

  /** Concatenation is associative. */
  lemma ConcatAssoc(a: Lines, b: Lines, c: Lines)
    requires WellFormed(a) && WellFormed(b) && WellFormed(c)
    ensures Concat(Concat(a, b), c) == Concat(a, Concat(b, c))
  {
    var left, right := Concat(Concat(a, b), c), Concat(a, Concat(b, c));
    var ka, kb := |a| - 1, |b| - 1;
    var ab, bc := Concat(a, b), Concat(b, c);
    assert |left| == |right|;
    forall i | 0 <= i < |left|
      ensures left[i] == right[i]
    {
      if i < ka {
        assert left[i] == ab[i] == a[i];
        assert right[i] == a[i];
      } else if i == ka {
        if kb == 0 {
          assert left[i] == ab[ka] + c[0] == a[ka] + b[0] + c[0];
          assert right[i] == a[ka] + bc[0] == a[ka] + (b[0] + c[0]);
        } else {
          assert left[i] == ab[ka] == a[ka] + b[0];
          assert right[i] == a[ka] + bc[0] == a[ka] + b[0];
        }
      } else if i < ka + kb {
        assert left[i] == ab[i] == b[i - ka];
        assert right[i] == bc[i - ka] == b[i - ka];
      } else if i == ka + kb {
        assert left[i] == ab[ka + kb] + c[0] == b[kb] + c[0];
        assert right[i] == bc[kb] == b[kb] + c[0];
      } else {
        assert left[i] == c[i - ka - kb];
        assert right[i] == bc[i - ka] == c[i - ka - kb];
      }
    }
  }

  // ---------------------------------------------------------------------
  // Edits, defined by the cuts
  // ---------------------------------------------------------------------

  /** A position can be edited at: its line exists and the column is within it. */
  predicate At(ls: Lines, p: Position)
  {
    Fits(ls, AsSize(p))
  }

  /** A text with `t` inserted at `p`: what comes before `p`, then `t`, then what came after. */
  function Inserted(ls: Lines, p: Position, t: Lines): (r: Lines)
    requires At(ls, p) && WellFormed(t)
    ensures WellFormed(r) && |r| == |ls| + |t| - 1
  {
    Concat(Concat(Taken(ls, AsSize(p)), t), Skipped(ls, AsSize(p)))
  }

  /**
   * The requirements of `delete(p, count)`: the line `count.line` below `p`
   * exists, `p` is within its line, and the end column is within the last
   * line touched (on `p`'s own line, counted from `p`).
   */
  predicate CanDelete(ls: Lines, p: Position, count: Size)
  {
    p.line + count.line < |ls| && p.column <= |ls[p.line]| &&
    (count.line == 0 ==> p.column + count.column <= |ls[p.line]|) &&
    (count.line > 0 ==> count.column <= |ls[p.line + count.line]|)
  }

  /** The deletion requirements say that `p` fits and then `count` fits what follows `p`. */
  lemma CanDeleteFits(ls: Lines, p: Position, count: Size)
    requires CanDelete(ls, p, count)
    ensures At(ls, p) && Fits(Skipped(ls, AsSize(p)), count)
  {
    var s := Skipped(ls, AsSize(p));
    if count.line > 0 {
      assert s[count.line] == ls[p.line + count.line];
    }
  }

  /** A text with `count` removed at `p`: what comes before `p`, then what comes after the removed stretch. */
  function Deleted(ls: Lines, p: Position, count: Size): (r: Lines)
    requires CanDelete(ls, p, count)
    ensures WellFormed(r) && |r| == |ls| - count.line
  {
    CanDeleteFits(ls, p, count);
    Concat(Taken(ls, AsSize(p)), Skipped(Skipped(ls, AsSize(p)), count))
  }

  /** Removing `count` at `p` removes exactly what copying `count` from `p` returns. */
  function Removed(ls: Lines, p: Position, count: Size): (r: Lines)
    requires CanDelete(ls, p, count)
    ensures WellFormed(r) && LenOf(r) == count
  {
    CanDeleteFits(ls, p, count);
    LenOfTaken(Skipped(ls, AsSize(p)), count);
    Taken(Skipped(ls, AsSize(p)), count)
  }

  /** Inserting a text and deleting its size at the same place restores the original. */
  lemma InsertDeleteRoundTrip(ls: Lines, p: Position, t: Lines)
    requires At(ls, p) && WellFormed(t)
    ensures CanDelete(Inserted(ls, p, t), p, LenOf(t))
    ensures Deleted(Inserted(ls, p, t), p, LenOf(t)) == ls
  {
    var a, b := Taken(ls, AsSize(p)), Skipped(ls, AsSize(p));
    var tb := Concat(t, b);
    ConcatAssoc(a, t, b);
    LenOfTaken(ls, AsSize(p));
    CutConcat(a, tb);
    CutConcat(t, b);
    TakeSkipConcat(ls, AsSize(p));
    var ins := Inserted(ls, p, t);
    assert ins == Concat(a, tb);
    FitsBack(ins, p, LenOf(t));
  }

  /** Converse of `CanDeleteFits`. */
  lemma FitsBack(ls: Lines, p: Position, count: Size)
    requires At(ls, p) && Fits(Skipped(ls, AsSize(p)), count)
    ensures CanDelete(ls, p, count)
  {
    var s := Skipped(ls, AsSize(p));
    if count.line > 0 {
      assert s[count.line] == ls[p.line + count.line];
    }
  }

  /** Deleting a stretch and inserting the removed text back at the same place restores the original. */
  lemma DeleteInsertRoundTrip(ls: Lines, p: Position, count: Size)
    requires CanDelete(ls, p, count)
    ensures At(Deleted(ls, p, count), p)
    ensures Inserted(Deleted(ls, p, count), p, Removed(ls, p, count)) == ls
  {
    CanDeleteFits(ls, p, count);
    var a, s := Taken(ls, AsSize(p)), Skipped(ls, AsSize(p));
    var x, y := Taken(s, count), Skipped(s, count);
    var d := Deleted(ls, p, count);
    LenOfTaken(ls, AsSize(p));
    CutConcat(a, y);
    assert Taken(d, AsSize(p)) == a && Skipped(d, AsSize(p)) == y;
    ConcatAssoc(a, x, y);
    TakeSkipConcat(s, count);
    TakeSkipConcat(ls, AsSize(p));
  }

  /** Inserting a one-line text splices it into the line at `p`; no other line changes. */
  lemma InsertOneLine(ls: Lines, p: Position, t: Lines)
    requires At(ls, p) && |t| == 1
    ensures Inserted(ls, p, t) == ls[p.line := ls[p.line][..p.column] + t[0] + ls[p.line][p.column..]]
  {
    var line := ls[p.line];
    var a, b := Taken(ls, AsSize(p)), Skipped(ls, AsSize(p));
    var at := Concat(a, t);
    assert at == ls[..p.line] + [line[..p.column] + t[0]];
    var r := Concat(at, b);
    assert r == ls[..p.line] + [line[..p.column] + t[0] + line[p.column..]] + ls[p.line + 1..];
  }

  /**
   * Inserting a text of several lines: the first gets the line's prefix in
   * front, the last gets its suffix behind, the middle lines go in as they are.
   */
  lemma InsertManyLines(ls: Lines, p: Position, t: Lines)
    requires At(ls, p) && |t| >= 2
    ensures Inserted(ls, p, t) ==
      ls[..p.line] + [ls[p.line][..p.column] + t[0]] + t[1..|t| - 1] +
      [t[|t| - 1] + ls[p.line][p.column..]] + ls[p.line + 1..]
  {
    var line := ls[p.line];
    var a, b := Taken(ls, AsSize(p)), Skipped(ls, AsSize(p));
    var at := Concat(a, t);
    assert at == ls[..p.line] + [line[..p.column] + t[0]] + t[1..];
    assert at[..|at| - 1] == ls[..p.line] + [line[..p.column] + t[0]] + t[1..|t| - 1];
    assert at[|at| - 1] == t[|t| - 1];
  }

  /** Deleting within one line removes `count.column` characters at `p`; no other line changes. */
  lemma DeleteOneLine(ls: Lines, p: Position, count: Size)
    requires CanDelete(ls, p, count) && count.line == 0
    ensures Deleted(ls, p, count) == ls[p.line := ls[p.line][..p.column] + ls[p.line][p.column + count.column..]]
  {
    CanDeleteFits(ls, p, count);
    var line := ls[p.line];
    var s := Skipped(ls, AsSize(p));
    assert Skipped(s, count) == [line[p.column + count.column..]] + ls[p.line + 1..];
  }

  /**
   * Deleting across lines joins the prefix of `p`'s line with the rest of the
   * line `count.line` below, and drops the lines in between.
   */
  lemma DeleteManyLines(ls: Lines, p: Position, count: Size)
    requires CanDelete(ls, p, count) && count.line > 0
    ensures Deleted(ls, p, count) ==
      ls[..p.line] + [ls[p.line][..p.column] + ls[p.line + count.line][count.column..]] +
      ls[p.line + count.line + 1..]
  {
    CanDeleteFits(ls, p, count);
    var s := Skipped(ls, AsSize(p));
    assert s[count.line] == ls[p.line + count.line];
    assert s[count.line + 1..] == ls[p.line + count.line + 1..];
  }

  // ---------------------------------------------------------------------
  // Copying a range
  // ---------------------------------------------------------------------

  /** The range runs forwards. */
  predicate Forward(r: Range)
  {
    r.start.line < r.end.line || (r.start.line == r.end.line && r.start.column <= r.end.column)
  }

  /** The size of the stretch from `r.start` to `r.end`. */
  function RangeSize(r: Range): Size
    requires Forward(r)
  {
    if r.start.line == r.end.line then Size(0, r.end.column - r.start.column)
    else Size(r.end.line - r.start.line, r.end.column)
  }

  /**
   * The requirements of `copy(range)`: the range runs forwards, its end line
   * exists, and both columns are within their lines.
   */
  predicate CanCopy(ls: Lines, r: Range)
  {
    Forward(r) && r.end.line < |ls| && r.start.column <= |ls[r.start.line]| &&
    r.end.column <= |ls[r.end.line]|
  }

  /** A copyable range is a deletable stretch: its start fits and its size fits what follows. */
  lemma CanCopyDelete(ls: Lines, r: Range)
    requires CanCopy(ls, r)
    ensures CanDelete(ls, r.start, RangeSize(r))
  {
  }

  // ---------------------------------------------------------------------
  // The codeeditor variant's insert, as written
  // ---------------------------------------------------------------------

  /**
   * The codeeditor's multi-line insert cuts the last inserted line at the
   * length of the target line before appending the target's suffix, which
   * needs that last line to be at least that long.
   */
  predicate SpliceFits(ls: Lines, p: Position, t: Lines)
    requires At(ls, p) && WellFormed(t)
  {
    |t| >= 2 ==> |ls[p.line]| <= |t[|t| - 1]|
  }

  /**
   * The text the codeeditor's `insert` produces: a one-line text is spliced
   * in; otherwise the first inserted line gets the line's prefix and the last
   * inserted line is cut at the line's length before the suffix is appended.
   */
  function SplicedAtLineLength(ls: Lines, p: Position, t: Lines): (r: Lines)
    requires At(ls, p) && WellFormed(t) && SpliceFits(ls, p, t)
    ensures WellFormed(r) && |r| == |ls| + |t| - 1
  {
    var line := ls[p.line];
    if |t| == 1 then ls[p.line := line[..p.column] + t[0] + line[p.column..]]
    else
      ls[..p.line] + [line[..p.column] + t[0]] + t[1..|t| - 1] +
      [t[|t| - 1][..|line|] + line[p.column..]] + ls[p.line + 1..]
  }

  /** On a one-line text the codeeditor's insert is the insert. */
  lemma SplicedOneLine(ls: Lines, p: Position, t: Lines)
    requires At(ls, p) && |t| == 1
    ensures SplicedAtLineLength(ls, p, t) == Inserted(ls, p, t)
  {
    InsertOneLine(ls, p, t);
  }

  /**
   * On a text of several lines the codeeditor's insert is the insert exactly
   * when the last inserted line is as long as the target line; when it is
   * longer, its characters past that length are lost.
   */
  lemma SplicedManyLinesIff(ls: Lines, p: Position, t: Lines)
    requires At(ls, p) && |t| >= 2 && SpliceFits(ls, p, t)
    ensures SplicedAtLineLength(ls, p, t) == Inserted(ls, p, t) <==> |t[|t| - 1]| == |ls[p.line]|
  {
    InsertManyLines(ls, p, t);
    var line, last := ls[p.line], t[|t| - 1];
    var k := p.line + |t| - 1;
    var spliced, inserted := SplicedAtLineLength(ls, p, t), Inserted(ls, p, t);
    assert spliced[k] == last[..|line|] + line[p.column..];
    assert inserted[k] == last + line[p.column..];
    if |last| == |line| {
      assert last[..|line|] == last;
    } else {
      assert |spliced[k]| != |inserted[k]|;
    }
  }

  /** Inserting "xyz" after a line break at column 1 of "ab" gives "xyb" where "xyzb" is meant. */
  lemma SplicedDropsCharacters()
    ensures SpliceFits(["ab"], Position(0, 1), [[], "xyz"])
    ensures SplicedAtLineLength(["ab"], Position(0, 1), [[], "xyz"]) == ["a", "xyb"]
    ensures Inserted(["ab"], Position(0, 1), [[], "xyz"]) == ["a", "xyzb"]
  {
    var ls: Lines, t: Lines := ["ab"], [[], "xyz"];
    InsertManyLines(ls, Position(0, 1), t);
    assert ls[..0] == [] && ls[1..] == [] && t[1..1] == [];
    assert ls[0][..1] == "a" && ls[0][1..] == "b";
    assert t[1][..2] == "xy";
    assert ls[0][..1] + t[0] == "a";
    assert t[1][..2] + ls[0][1..] == "xyb";
    assert t[1] + ls[0][1..] == "xyzb";
  }

  /** Inserting a line break into a non-empty line cannot be done: the empty last line is shorter than the line. */
  lemma SplicedRejectsLineBreak(line: Line, column: nat)
    requires 0 < |line| && column <= |line|
    ensures !SpliceFits([line], Position(0, column), [[], []])
  {
  }
}

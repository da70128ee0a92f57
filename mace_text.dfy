/**
 * The mace editor's text buffer (`mace::text::Text`): a list of lines edited
 * in place. Every edit is proved to produce the text the cuts in `TextLines`
 * define, so the round trips proved there hold for the buffer.
 *
 * `Position += Size`, which `apply_delta` uses to move its cursor, lives in a
 * file that is not part of this model; it is the parameter `advance`.
 */
module MaceText {
  import opened TextLines
  import opened Deltas

  class Text {
    var lines: Lines

    predicate Valid()
      reads this
    {
      WellFormed(lines)
    }

    /** `Text::default`: one empty line. */
    constructor Default()
      ensures Valid() && lines == [[]]
    {
      lines := [[]];
    }

    /** `Text::from_lines` and `From<Vec<Vec<char>>>`: the lines as given; the source checks nothing, so `Valid` need not hold. */
    constructor FromLines(ls: Lines)
      ensures lines == ls
      ensures WellFormed(ls) ==> Valid()
    {
      lines := ls;
    }

    /** `Text::len`: the size of the whole text, so taking it takes everything. */
    function Len(): (n: Size)
      reads this
      requires Valid()
      ensures Fits(lines, n) && Taken(lines, n) == lines && Skipped(lines, n) == [[]]
    {
      TakeAll(lines);
      LenOf(lines)
    }

    /** `Text::is_empty`: the size is zero exactly for the default text. */
    function IsEmpty(): (b: bool)
      reads this
      requires Valid()
      ensures b <==> lines == [[]]
    {
      ZeroIffEmpty(lines);
      IsZero(LenOf(lines))
    }

    /**
     * `Text::copy(range)`: the stretch of `range.end - range.start` that
     * starts at `range.start`; on one line a slice of it, otherwise the tail
     * of the first line, the lines between, and the head of the last line.
     */
    function Copy(r: Range): (c: Lines)
      reads this
      requires Valid() && CanCopy(lines, r)
      ensures CanDelete(lines, r.start, RangeSize(r))
      ensures c == Removed(lines, r.start, RangeSize(r))
      ensures LenOf(c) == RangeSize(r)
    {
      CanCopyDelete(lines, r);
      var sl, el := r.start.line, r.end.line;
      var s := Skipped(lines, AsSize(r.start));
      if sl == el then
        assert s[0][..r.end.column - r.start.column] == lines[sl][r.start.column..r.end.column];
        [lines[sl][r.start.column..r.end.column]]
      else
        assert s[..el - sl] == [lines[sl][r.start.column..]] + lines[sl + 1..el];
        assert s[el - sl] == lines[el];
        [lines[sl][r.start.column..]] + lines[sl + 1..el] + [lines[el][..r.end.column]]
    }

    /** `Text::take(len)`: drains the first `len` of the text into the result. */
    method Take(n: Size) returns (taken: Lines)
      requires Valid() && Fits(lines, n)
      modifies this
      ensures Valid()
      ensures taken == Taken(old(lines), n) && lines == Skipped(old(lines), n)
      ensures LenOf(taken) == n && Concat(taken, lines) == old(lines)
    {
      ghost var before := lines;
      taken := lines[..n.line];
      lines := lines[n.line..];
      taken := taken + [lines[0][..n.column]];
      lines := lines[0 := lines[0][n.column..]];
      assert lines == Skipped(before, n);
      LenOfTaken(before, n);
      TakeSkipConcat(before, n);
    }

    /** `Text::skip(len)`: drops the first `len` of the text. */
    method Skip(n: Size)
      requires Valid() && Fits(lines, n)
      modifies this
      ensures Valid() && lines == Skipped(old(lines), n)
    {
      lines := lines[n.line..];
      lines := lines[0 := lines[0][n.column..]];
    }

    /**
     * `Text::insert(position, text)`: a one-line text is spliced into the
     * line; otherwise the line's prefix goes in front of the first inserted
     * line, its suffix after the last, and the result replaces the line.
     */
    method Insert(p: Position, t: Lines)
      requires Valid() && At(lines, p) && WellFormed(t)
      modifies this
      ensures Valid() && lines == Inserted(old(lines), p, t)
    {
      ghost var before := lines;
      var line := lines[p.line];
      if LenOf(t).line == 0 {
        lines := lines[p.line := line[..p.column] + t[0] + line[p.column..]];
        InsertOneLine(before, p, t);
      } else {
        var text := t;
        text := text[0 := line[..p.column] + text[0]];
        text := text[|text| - 1 := text[|text| - 1] + line[p.column..]];
        assert text == [line[..p.column] + t[0]] + t[1..|t| - 1] + [t[|t| - 1] + line[p.column..]];
        lines := lines[..p.line] + text + lines[p.line + 1..];
        InsertManyLines(before, p, t);
      }
    }

    /**
     * `Text::delete(position, count)`: within one line, `count.column`
     * characters go; across lines, the line's prefix is joined to the rest of
     * the line `count.line` below, replacing every line in between.
     */
    method Delete(p: Position, count: Size)
      requires Valid() && CanDelete(lines, p, count)
      modifies this
      ensures Valid() && lines == Deleted(old(lines), p, count)
    {
      ghost var before := lines;
      if count.line == 0 {
        var line := lines[p.line];
        lines := lines[p.line := line[..p.column] + line[p.column + count.column..]];
        DeleteOneLine(before, p, count);
      } else {
        var line := lines[p.line];
        lines := lines[p.line := []];
        line := line[..p.column] + lines[p.line + count.line][count.column..];
        lines := lines[..p.line] + [line] + lines[p.line + count.line + 1..];
        DeleteManyLines(before, p, count);
      }
    }

    /** `Text += other`: the first line of `other` extends the last line, its other lines follow. */
    method AddAssign(other: Lines)
      requires Valid() && WellFormed(other)
      modifies this
      ensures Valid() && lines == Concat(old(lines), other)
    {
      var last := |lines| - 1;
      lines := lines[last := lines[last] + other[0]];
      lines := lines + other[1..];
    }

    /**
     * `Text::apply_delta`: runs the operations in order from the origin; a
     * retain moves the cursor, an insert edits and then moves past the
     * inserted text, a delete edits and leaves the cursor where it is.
     */
    method ApplyDelta(delta: Delta, advance: (Position, Size) -> Position)
      requires Valid() && Runs(Extend, lines, Origin(), delta, advance)
      modifies this
      ensures Valid() && lines == Run(Extend, old(lines), Origin(), delta, advance).0
    {
      var position := Origin();
      ghost var goal := Run(Extend, lines, position, delta, advance);
      for i := 0 to |delta|
        invariant Valid()
        invariant Runs(Extend, lines, position, delta[i..], advance)
        invariant Run(Extend, lines, position, delta[i..], advance) == goal
      {
        assert delta[i..][0] == delta[i] && delta[i..][1..] == delta[i + 1..];
        match delta[i]
        case Retain(count) =>
          position := advance(position, count);
        case Insert(text) =>
          var len := LenOf(text);
          Insert(position, text);
          position := advance(position, len);
        case Delete(count) =>
          Delete(position, count);
      }
      assert delta[|delta|..] == [];
    }
  }
}

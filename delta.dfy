/**
 * `apply_delta`, shared by both text buffers: the operations of a delta run
 * in order from the origin; a retain moves the cursor, an insert edits and
 * then moves past the inserted text, a delete edits and keeps the cursor.
 * The buffers differ only in how their `insert` builds the new lines.
 *
 * `Position += Size` lives in a file that is not part of this model; it is
 * the parameter `advance`.
 */
module Deltas {
  import opened TextLines

  /** The insert a buffer uses: mace extends the last inserted line, the codeeditor splices at the line's length. */
  datatype InsertRule = Extend | SpliceAtLineLength

  /** The requirements of the buffer's `insert`. */
  predicate InsertOk(rule: InsertRule, ls: Lines, p: Position, t: Lines)
  {
    At(ls, p) && WellFormed(t) && (rule == SpliceAtLineLength ==> SpliceFits(ls, p, t))
  }

  /** The lines after the buffer's `insert`. */
  function InsertedBy(rule: InsertRule, ls: Lines, p: Position, t: Lines): (r: Lines)
    requires InsertOk(rule, ls, p, t)
    ensures WellFormed(r)
  {
    match rule
    case Extend => Inserted(ls, p, t)
    case SpliceAtLineLength => SplicedAtLineLength(ls, p, t)
  }

  /** One operation can run at `pos`. */
  predicate StepOk(rule: InsertRule, ls: Lines, pos: Position, op: Operation)
  {
    match op
    case Retain(_) => true
    case Insert(t) => InsertOk(rule, ls, pos, t)
    case Delete(count) => CanDelete(ls, pos, count)
  }

  /** One operation: the new text and the new cursor. */
  function Step(rule: InsertRule, ls: Lines, pos: Position, op: Operation, advance: (Position, Size) -> Position): (r: (Lines, Position))
    requires WellFormed(ls) && StepOk(rule, ls, pos, op)
    ensures WellFormed(r.0)
  {
    match op
    case Retain(count) => (ls, advance(pos, count))
    case Insert(t) => (InsertedBy(rule, ls, pos, t), advance(pos, LenOf(t)))
    case Delete(count) => (Deleted(ls, pos, count), pos)
  }

  /** Every operation of `delta` can run in turn, starting from `pos`. */
  predicate Runs(rule: InsertRule, ls: Lines, pos: Position, delta: Delta, advance: (Position, Size) -> Position)
    requires WellFormed(ls)
    decreases |delta|
  {
    delta == [] ||
    (StepOk(rule, ls, pos, delta[0]) &&
     var next := Step(rule, ls, pos, delta[0], advance);
     Runs(rule, next.0, next.1, delta[1..], advance))
  }

  /** The text and cursor after running every operation of `delta` from `pos`. */
  function Run(rule: InsertRule, ls: Lines, pos: Position, delta: Delta, advance: (Position, Size) -> Position): (r: (Lines, Position))
    requires WellFormed(ls) && Runs(rule, ls, pos, delta, advance)
    ensures WellFormed(r.0)
    decreases |delta|
  {
    if delta == [] then (ls, pos)
    else
      var next := Step(rule, ls, pos, delta[0], advance);
      Run(rule, next.0, next.1, delta[1..], advance)
  }

  /** Running two deltas one after the other is running their concatenation. */
  lemma {:induction false} RunAppend(rule: InsertRule, ls: Lines, pos: Position, d1: Delta, d2: Delta, advance: (Position, Size) -> Position)
    requires WellFormed(ls) && Runs(rule, ls, pos, d1, advance)
    requires Runs(rule, Run(rule, ls, pos, d1, advance).0, Run(rule, ls, pos, d1, advance).1, d2, advance)
    ensures Runs(rule, ls, pos, d1 + d2, advance)
    ensures Run(rule, ls, pos, d1 + d2, advance) ==
      Run(rule, Run(rule, ls, pos, d1, advance).0, Run(rule, ls, pos, d1, advance).1, d2, advance)
    decreases |d1|
  {
    if d1 == [] {
      assert d1 + d2 == d2;
    } else {
      var next := Step(rule, ls, pos, d1[0], advance);
      assert (d1 + d2)[0] == d1[0];
      assert (d1 + d2)[1..] == d1[1..] + d2;
      RunAppend(rule, next.0, next.1, d1[1..], d2, advance);
    }
  }

  /** Only `Retain`s in the delta. */
  predicate RetainsOnly(delta: Delta)
  {
    forall i | 0 <= i < |delta| :: delta[i].Retain?
  }

  /** A delta of `Retain`s only moves the cursor and leaves the text alone. */
  lemma {:induction false} RetainsKeepText(rule: InsertRule, ls: Lines, pos: Position, delta: Delta, advance: (Position, Size) -> Position)
    requires WellFormed(ls) && RetainsOnly(delta)
    ensures Runs(rule, ls, pos, delta, advance) && Run(rule, ls, pos, delta, advance).0 == ls
    decreases |delta|
  {
    if delta != [] {
      assert delta[0].Retain?;
      assert RetainsOnly(delta[1..]) by {
        forall i | 0 <= i < |delta[1..]|
          ensures delta[1..][i].Retain?
        {
          assert delta[1..][i] == delta[i + 1];
        }
      }
      RetainsKeepText(rule, ls, advance(pos, delta[0].count), delta[1..], advance);
    }
  }

  /** With mace's insert, an `Insert` delta is undone by a `Delete` of the inserted size at the same cursor. */
  lemma InsertDeltaUndone(ls: Lines, pos: Position, t: Lines, advance: (Position, Size) -> Position)
    requires At(ls, pos) && WellFormed(t)
    ensures Runs(Extend, ls, pos, [Insert(t)], advance)
    ensures var after := Run(Extend, ls, pos, [Insert(t)], advance).0;
      Runs(Extend, after, pos, [Delete(LenOf(t))], advance) && Run(Extend, after, pos, [Delete(LenOf(t))], advance).0 == ls
  {
    InsertDeleteRoundTrip(ls, pos, t);
    var ins := Inserted(ls, pos, t);
    assert [Insert(t)][1..] == [];
    assert [Delete(LenOf(t))][1..] == [];
    assert Runs(Extend, ins, advance(pos, LenOf(t)), [], advance);
    assert Run(Extend, ls, pos, [Insert(t)], advance).0 == ins;
    assert Runs(Extend, Deleted(ins, pos, LenOf(t)), pos, [], advance);
  }

  /** A `Delete` delta leaves the cursor where it was. */
  lemma DeleteKeepsCursor(rule: InsertRule, ls: Lines, pos: Position, count: Size, advance: (Position, Size) -> Position)
    requires CanDelete(ls, pos, count)
    ensures Runs(rule, ls, pos, [Delete(count)], advance)
    ensures Run(rule, ls, pos, [Delete(count)], advance) == (Deleted(ls, pos, count), pos)
  {
    assert [Delete(count)][1..] == [];
  }
}

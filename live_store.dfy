/**
 * What the lookups and the write of `LiveDocument` compute, stated on the
 * levels of nodes as values.
 *
 * A document keeps its tree level by level: `nodes[l]` is one flat row, and
 * a `Class` value at level `l` owns the run `nodeStart .. nodeStart +
 * nodeCount` of row `l + 1`. A dotted path is followed one segment at a
 * time: the first node of the current run whose id is the segment, and,
 * when more segments follow, that node must be a class whose run is next.
 */
module LiveStore {
  import opened Wrappers
  import opened Ids
  import opened LiveNodes

  type Levels = seq<seq<LiveNode>>

  /** Every class's run lies inside the next level. */
  predicate ClassRunsFit(nodes: Levels) {
    forall l, i {:trigger nodes[l][i].value} | 0 <= l < |nodes| && 0 <= i < |nodes[l]| && nodes[l][i].value.Class? ::
      l + 1 < |nodes| && nodes[l][i].value.nodeStart + nodes[l][i].value.nodeCount <= |nodes[l + 1]|
  }

  /** A value placed at level `l` keeps `ClassRunsFit`: if it is a class, its run lies in level `l + 1`. */
  predicate RunFits(nodes: Levels, l: nat, v: LiveValue) {
    v.Class? ==> l + 1 < |nodes| && v.nodeStart + v.nodeCount <= |nodes[l + 1]|
  }

  /**
   * Where a walk stands: a run of one level and, once a class has been
   * entered, the index of that class in the level above (`last_class`).
   */
  datatype Cursor = Cursor(level: nat, start: nat, count: nat, parent: Option<nat>)

  /** The value of a class that owns exactly the run `start .. start + count`. */
  predicate OwnsRun(v: LiveValue, start: nat, count: nat) {
    v.Class? && v.nodeStart == start && v.nodeCount == count
  }

  predicate CursorOk(nodes: Levels, c: Cursor) {
    c.level < |nodes| && c.start + c.count <= |nodes[c.level]|
    && (c.parent.Some? ==>
          c.level >= 1 && c.parent.value < |nodes[c.level - 1]|
          && OwnsRun(nodes[c.level - 1][c.parent.value].value, c.start, c.count))
  }

  /** The walk `scan_for_multi` starts from: all of level 0, no class entered. */
  function Root(nodes: Levels): (c: Cursor)
    requires |nodes| >= 1
    ensures CursorOk(nodes, c) && c.parent.None?
  {
    Cursor(0, 0, |nodes[0]|, None)
  }

  /** The first node of the run `start .. start + count` whose id is `id`. */
  function FindInRun(row: seq<LiveNode>, start: nat, count: nat, id: Id): (r: Option<nat>)
    requires start + count <= |row|
    ensures r.Some? ==> start <= r.value < start + count && row[r.value].id == id
    ensures r.Some? ==> forall k | start <= k < r.value :: row[k].id != id
    ensures r.None? ==> forall k | start <= k < start + count :: row[k].id != id
    decreases count
  {
    if count == 0 then None
    else if row[start].id == id then Some(start)
    else FindInRun(row, start + 1, count - 1, id)
  }

  /** How following a prefix of a path ends. */
  datatype Nav =
    | At(cursor: Cursor)   // every segment found, each but the last a class
    | Missing              // a segment is not in its run
    | NotClass             // a segment was found but is not a class

  /** One step: find the segment in the run and enter its class. */
  function Enter(nodes: Levels, c: Cursor, id: Id): (n: Nav)
    requires ClassRunsFit(nodes) && CursorOk(nodes, c)
    ensures n.At? ==> CursorOk(nodes, n.cursor) && n.cursor.level == c.level + 1 && n.cursor.parent.Some?
  {
    match FindInRun(nodes[c.level], c.start, c.count, id)
    case None => Missing
    case Some(j) =>
      var v := nodes[c.level][j].value;
      if v.Class? then At(Cursor(c.level + 1, v.nodeStart, v.nodeCount, Some(j))) else NotClass
  }

  /** Follow every segment of `prefix`, entering a class at each. */
  function Descend(nodes: Levels, c: Cursor, prefix: seq<Id>): (n: Nav)
    requires ClassRunsFit(nodes) && CursorOk(nodes, c)
    ensures n.At? ==> CursorOk(nodes, n.cursor) && n.cursor.level == c.level + |prefix|
    ensures n.At? ==> (n.cursor.parent.Some? <==> prefix != [] || c.parent.Some?)
    decreases |prefix|
  {
    if prefix == [] then At(c)
    else
      match Descend(nodes, c, prefix[..|prefix| - 1])
      case At(d) => Enter(nodes, d, prefix[|prefix| - 1])
      case Missing => Missing
      case NotClass => NotClass
  }

  /**
   * `scan_for_multi`: the node the whole path names, if every segment but
   * the last is a class and the last is in the final run.
   */
  function Resolve(nodes: Levels, c: Cursor, path: seq<Id>): (r: Option<LiveNodePtr>)
    requires ClassRunsFit(nodes) && CursorOk(nodes, c)
    ensures r.Some? ==> path != [] && r.value.level == c.level + |path| - 1
    ensures r.Some? ==> r.value.level < |nodes| && r.value.index < |nodes[r.value.level]| && nodes[r.value.level][r.value.index].id == path[|path| - 1]
  {
    if path == [] then None
    else
      match Descend(nodes, c, path[..|path| - 1])
      case At(d) =>
        (match FindInRun(nodes[d.level], d.start, d.count, path[|path| - 1])
         case Some(j) => Some(LiveNodePtr(d.level, j))
         case None => None)
      case Missing => None
      case NotClass => None
  }

  /** Why `scan_for_multi_for_expand` gives up; the source reports each as a message. */
  datatype ExpandError = NotAnObjectPath | CannotFindClass

  /** The segments `scan_for_multi_for_expand` follows: all but the first of the multi id. */
  function ExpandPath(multiIds: seq<Id>, idStart: nat, idCount: nat): (path: seq<Id>)
    requires idStart + idCount <= |multiIds|
    ensures |path| == if idCount == 0 then 0 else idCount - 1
    ensures forall k | 0 <= k < |path| :: path[k] == multiIds[idStart + 1 + k]
  {
    if idCount == 0 then [] else multiIds[idStart + 1 .. idStart + idCount]
  }

  /** `scan_for_multi_for_expand`: like `Resolve`, but says why a path fails. */
  function ExpandResolve(nodes: Levels, c: Cursor, path: seq<Id>): (r: Result<LiveNodePtr, ExpandError>)
    requires ClassRunsFit(nodes) && CursorOk(nodes, c)
  {
    if path == [] then Err(CannotFindClass)
    else
      match Descend(nodes, c, path[..|path| - 1])
      case At(d) =>
        (match FindInRun(nodes[d.level], d.start, d.count, path[|path| - 1])
         case Some(j) => Ok(LiveNodePtr(d.level, j))
         case None => Err(CannotFindClass))
      case Missing => Err(CannotFindClass)
      case NotClass => Err(NotAnObjectPath)
  }

  /**
   * The two scans agree on every path: expansion succeeds exactly where the
   * plain scan does, with the same node, and reports "not an object path"
   * exactly when a segment before the last is found but is not a class.
   */
  lemma ExpandAgreesWithResolve(nodes: Levels, c: Cursor, path: seq<Id>)
    requires ClassRunsFit(nodes) && CursorOk(nodes, c)
    ensures ExpandResolve(nodes, c, path).Ok? <==> Resolve(nodes, c, path).Some?
    ensures ExpandResolve(nodes, c, path).Ok? ==> ExpandResolve(nodes, c, path).value == Resolve(nodes, c, path).value
    ensures (ExpandResolve(nodes, c, path) == Err(NotAnObjectPath))
              <==> (path != [] && Descend(nodes, c, path[..|path| - 1]) == NotClass)
  {
  }

  /** Once a walk is stuck it stays stuck, whatever segments follow. */
  lemma {:induction false} StuckStaysStuck(nodes: Levels, c: Cursor, path: seq<Id>, k: nat)
    requires ClassRunsFit(nodes) && CursorOk(nodes, c)
    requires k <= |path| && !Descend(nodes, c, path[..k]).At?
    ensures Descend(nodes, c, path) == Descend(nodes, c, path[..k])
    decreases |path| - k
  {
    if k < |path| {
      assert path[..k + 1][..k] == path[..k];
      StuckStaysStuck(nodes, c, path, k + 1);
    } else {
      assert path[..k] == path;
    }
  }

  /** Following a path one segment further is one more `Enter`. */
  lemma DescendSnoc(nodes: Levels, c: Cursor, path: seq<Id>, k: nat)
    requires ClassRunsFit(nodes) && CursorOk(nodes, c)
    requires k < |path| && Descend(nodes, c, path[..k]).At?
    ensures Descend(nodes, c, path[..k + 1]) == Enter(nodes, Descend(nodes, c, path[..k]).cursor, path[k])
  {
    assert path[..k + 1][..k] == path[..k];
  }

  /**
   * One step of `scan_for_multi`, having followed `path[..k]` to the run
   * `d`: what the scan of `d` for `path[k]` decides.
   */
  lemma ResolveStep(nodes: Levels, c: Cursor, path: seq<Id>, k: nat)
    requires ClassRunsFit(nodes) && CursorOk(nodes, c)
    requires k < |path| && Descend(nodes, c, path[..k]).At?
    ensures var d := Descend(nodes, c, path[..k]).cursor;
            var f := FindInRun(nodes[d.level], d.start, d.count, path[k]);
            (f.None? ==> Resolve(nodes, c, path) == None)
            && (f.Some? && k == |path| - 1 ==> Resolve(nodes, c, path) == Some(LiveNodePtr(d.level, f.value)))
            && (f.Some? && k < |path| - 1 && !nodes[d.level][f.value].value.Class? ==> Resolve(nodes, c, path) == None)
            && (f.Some? && k < |path| - 1 && nodes[d.level][f.value].value.Class? ==>
                  var v := nodes[d.level][f.value].value;
                  Descend(nodes, c, path[..k + 1]) == At(Cursor(d.level + 1, v.nodeStart, v.nodeCount, Some(f.value))))
  {
    if k == |path| - 1 {
      assert path[..|path| - 1] == path[..k];
    } else {
      DescendSnoc(nodes, c, path, k);
      if !Descend(nodes, c, path[..k + 1]).At? {
        assert path[..|path| - 1][..k + 1] == path[..k + 1];
        StuckStaysStuck(nodes, c, path[..|path| - 1], k + 1);
      }
    }
  }

  /**
   * One step of `scan_for_multi_for_expand`, having followed `path[..k]` to
   * the run `d`: what the scan of `d` for `path[k]` decides.
   */
  lemma ExpandStep(nodes: Levels, c: Cursor, path: seq<Id>, k: nat)
    requires ClassRunsFit(nodes) && CursorOk(nodes, c)
    requires k < |path| && Descend(nodes, c, path[..k]).At?
    ensures var d := Descend(nodes, c, path[..k]).cursor;
            var f := FindInRun(nodes[d.level], d.start, d.count, path[k]);
            (f.None? ==> ExpandResolve(nodes, c, path) == Err(CannotFindClass))
            && (f.Some? && k == |path| - 1 ==> ExpandResolve(nodes, c, path) == Ok(LiveNodePtr(d.level, f.value)))
            && (f.Some? && k < |path| - 1 && !nodes[d.level][f.value].value.Class? ==>
                  ExpandResolve(nodes, c, path) == Err(NotAnObjectPath))
            && (f.Some? && k < |path| - 1 && nodes[d.level][f.value].value.Class? ==>
                  var v := nodes[d.level][f.value].value;
                  Descend(nodes, c, path[..k + 1]) == At(Cursor(d.level + 1, v.nodeStart, v.nodeCount, Some(f.value))))
  {
    if k == |path| - 1 {
      assert path[..|path| - 1] == path[..k];
    } else {
      DescendSnoc(nodes, c, path, k);
      if !Descend(nodes, c, path[..k + 1]).At? {
        assert path[..|path| - 1][..k + 1] == path[..k + 1];
        StuckStaysStuck(nodes, c, path[..|path| - 1], k + 1);
      }
    }
  }

  // ---------------------------------------------------------------------
  // Writing a node: `write_or_add_node`
  // ---------------------------------------------------------------------

  /** `LiveError` reduced to which error it is; the span and message are left out. */
  datatype LiveError = NotObjectPath | UnexpectedProblem2 | UnexpectedIdType

  /** The levels after a write, and what the write returned. */
  datatype Written = Written(nodes: Levels, result: Result<Option<nat>, LiveError>)

  /** The node at `(l, j)` takes the token and value of `inNode`; its id stays. */
  function Overwritten(nodes: Levels, l: nat, j: nat, inNode: LiveNode): (r: Levels)
    requires l < |nodes| && j < |nodes[l]|
    ensures |r| == |nodes| && forall k | 0 <= k < |r| :: |r[k]| == |nodes[k]|
    ensures r[l][j] == LiveNode(inNode.tokenId, nodes[l][j].id, inNode.value)
    ensures forall k, i | 0 <= k < |r| && 0 <= i < |r[k]| && (k != l || i != j) :: r[k][i] == nodes[k][i]
  {
    nodes[l := nodes[l][j := nodes[l][j].(tokenId := inNode.tokenId, value := inNode.value)]]
  }

  /**
   * A new last child of the class that owns the cursor's run. If the run
   * ends the level, the class's count grows by one; otherwise the run is
   * copied to the end of the level and the class points at the copy. Either
   * way the new node follows the run.
   */
  function AddChild(nodes: Levels, c: Cursor, node: LiveNode): (r: Levels)
    requires CursorOk(nodes, c) && c.parent.Some?
    ensures |r| == |nodes| && |r[c.level]| > |nodes[c.level]|
    ensures forall k | 0 <= k < |r| && k != c.level :: |r[k]| == |nodes[k]|
  {
    var row := nodes[c.level];
    var above := nodes[c.level - 1];
    var p := c.parent.value;
    var v := above[p].value;
    if |row| == c.start + c.count then
      var grown := nodes[c.level - 1 := above[p := above[p].(value := Class(v.className, c.start, c.count + 1))]];
      grown[c.level := row + [node]]
    else
      var moved := nodes[c.level - 1 := above[p := above[p].(value := Class(v.className, |row|, c.count + 1))]];
      moved[c.level := row + row[c.start .. c.start + c.count] + [node]]
  }

  /** Where the class's run starts after `AddChild`. */
  function NewRunStart(nodes: Levels, c: Cursor): nat
    requires CursorOk(nodes, c)
  {
    if |nodes[c.level]| == c.start + c.count then c.start else |nodes[c.level]|
  }

  /**
   * What `AddChild` does: the class now owns a run one longer, holding its
   * old children in order and then the new node; the level only grows; of
   * the level above only the class's run changes; nothing else changes.
   */
  lemma AddChildEffects(nodes: Levels, c: Cursor, node: LiveNode)
    requires CursorOk(nodes, c) && c.parent.Some?
    ensures var r := AddChild(nodes, c, node); var s := NewRunStart(nodes, c);
      |r| == |nodes|
      && CursorOk(r, Cursor(c.level, s, c.count + 1, c.parent))
      && r[c.level][s .. s + c.count] == nodes[c.level][c.start .. c.start + c.count]
      && r[c.level][s + c.count] == node
      && s + c.count + 1 == |r[c.level]|
      && r[c.level][..|nodes[c.level]|] == nodes[c.level]
      && |r[c.level - 1]| == |nodes[c.level - 1]|
      && r[c.level - 1] == nodes[c.level - 1][c.parent.value := r[c.level - 1][c.parent.value]]
      && r[c.level - 1][c.parent.value].id == nodes[c.level - 1][c.parent.value].id
      && r[c.level - 1][c.parent.value].tokenId == nodes[c.level - 1][c.parent.value].tokenId
      && r[c.level - 1][c.parent.value].value.className == nodes[c.level - 1][c.parent.value].value.className
      && (forall k | 0 <= k < |nodes| && k != c.level && k != c.level - 1 :: r[k] == nodes[k])
  {
  }

  /**
   * The Multi branch, from a cursor with no class entered: follow all but the
   * last segment; overwrite the last if its run has it; otherwise add it as a
   * new child of the last class entered, or fail if no class was entered.
   */
  function WriteMulti(nodes: Levels, c: Cursor, path: seq<Id>, inNode: LiveNode): (w: Written)
    requires ClassRunsFit(nodes) && CursorOk(nodes, c) && c.parent.None?
    ensures w.result.Err? ==> w.nodes == nodes && w.result.error != UnexpectedIdType
    ensures w.result.Ok? ==> w.result == Ok(None)
    ensures |w.nodes| == |nodes|
  {
    if path == [] then Written(nodes, Err(UnexpectedProblem2))
    else
      var last := path[|path| - 1];
      match Descend(nodes, c, path[..|path| - 1])
      case At(d) =>
        (match FindInRun(nodes[d.level], d.start, d.count, last)
         case Some(j) => Written(Overwritten(nodes, d.level, j, inNode), Ok(None))
         case None =>
           if d.parent.None? then Written(nodes, Err(NotObjectPath))
           else Written(AddChild(nodes, d, LiveNode(inNode.tokenId, last, inNode.value)), Ok(None)))
      case Missing => Written(nodes, Err(NotObjectPath))
      case NotClass => Written(nodes, Err(NotObjectPath))
  }

  /**
   * The Single branch: the first node from `start` to the end of the level
   * with the same id is replaced whole; without one, the node is appended and
   * its index returned. A `start` past the end scans nothing.
   */
  function WriteSingle(nodes: Levels, level: nat, start: nat, inNode: LiveNode): (w: Written)
    requires level < |nodes|
    ensures |w.nodes| == |nodes| && forall k | 0 <= k < |nodes| && k != level :: w.nodes[k] == nodes[k]
    ensures (w.result == Ok(None))
              <==> (exists i | start <= i < |nodes[level]| :: nodes[level][i].id == inNode.id)
    ensures w.result == Ok(None) ==>
              exists i | start <= i < |nodes[level]| ::
                nodes[level][i].id == inNode.id
                && (forall k | start <= k < i :: nodes[level][k].id != inNode.id)
                && w.nodes[level] == nodes[level][i := inNode]
    ensures w.result != Ok(None) ==>
              w.result == Ok(Some(|nodes[level]|)) && w.nodes[level] == nodes[level] + [inNode]
  {
    var row := nodes[level];
    var from := if start <= |row| then start else |row|;
    match FindInRun(row, from, |row| - from, inNode.id)
    case Some(i) => Written(nodes[level := row[i := inNode]], Ok(None))
    case None => Written(nodes[level := row + [inNode]], Ok(Some(|row|)))
  }

  /** What `write_or_add_node` needs to run without an index out of bounds. */
  predicate WriteOk(nodes: Levels, level: nat, start: nat, count: nat, multiIds: seq<Id>, inNode: LiveNode) {
    level < |nodes|
    && (ToType(inNode.id).Multi? ==>
          ClassRunsFit(nodes) && start + count <= |nodes[level]|
          && ToType(inNode.id).index + ToType(inNode.id).count <= |multiIds|)
  }

  /** The segments of a Multi id, read from the pool of the document it came from. */
  function MultiPath(multiIds: seq<Id>, id: Id): (path: seq<Id>)
    requires ToType(id).Multi? && ToType(id).index + ToType(id).count <= |multiIds|
    ensures |path| == ToType(id).count
  {
    multiIds[ToType(id).index .. ToType(id).index + ToType(id).count]
  }

  /** The path of a Multi id is the run of the pool its index and count name. */
  lemma MultiPathIsRun(multiIds: seq<Id>, id: Id, index: nat, count: nat)
    requires ToType(id) == Multi(index, count) && index + count <= |multiIds|
    ensures MultiPath(multiIds, id) == multiIds[index .. index + count]
  {
  }

  /**
   * `write_or_add_node`, dispatched on the kind of the incoming node's id.
   * A failed write changes nothing; an index is returned exactly when the
   * node was appended, and it is where the node now is.
   */
  function WriteOrAdd(nodes: Levels, level: nat, start: nat, count: nat, multiIds: seq<Id>, inNode: LiveNode): (w: Written)
    requires WriteOk(nodes, level, start, count, multiIds, inNode)
    ensures w.result.Err? ==> w.nodes == nodes
    ensures w.result.Ok? && w.result.value.Some? ==>
              w.result.value.value == |nodes[level]| && w.nodes == nodes[level := nodes[level] + [inNode]]
    ensures (w.result == Err(UnexpectedIdType)) <==> (ToType(inNode.id).NodePtr? || ToType(inNode.id).Number?)
    ensures ToType(inNode.id).Empty? ==> w.result == Ok(Some(|nodes[level]|))
    ensures !ToType(inNode.id).Multi? ==> w.result != Err(NotObjectPath) && w.result != Err(UnexpectedProblem2)
    ensures |w.nodes| == |nodes|
  {
    var t := ToType(inNode.id);
    if t.Multi? then
      WriteMulti(nodes, Cursor(level, start, count, None), MultiPath(multiIds, inNode.id), inNode)
    else if t.Single? then
      WriteSingle(nodes, level, start, inNode)
    else if t.Empty? then
      Written(nodes[level := nodes[level] + [inNode]], Ok(Some(|nodes[level]|)))
    else
      Written(nodes, Err(UnexpectedIdType))
  }

  /**
   * One step of the Multi branch of `write_or_add_node`, having followed
   * `path[..k]` to the run `d`: what the scan of `d` for `path[k]` decides.
   */
  lemma WriteStep(nodes: Levels, c: Cursor, path: seq<Id>, inNode: LiveNode, k: nat)
    requires ClassRunsFit(nodes) && CursorOk(nodes, c) && c.parent.None?
    requires k < |path| && Descend(nodes, c, path[..k]).At?
    ensures var d := Descend(nodes, c, path[..k]).cursor;
            var f := FindInRun(nodes[d.level], d.start, d.count, path[k]);
            (f.Some? && k == |path| - 1 ==>
               WriteMulti(nodes, c, path, inNode) == Written(Overwritten(nodes, d.level, f.value, inNode), Ok(None)))
            && (f.Some? && k < |path| - 1 && !nodes[d.level][f.value].value.Class? ==>
                  WriteMulti(nodes, c, path, inNode) == Written(nodes, Err(NotObjectPath)))
            && (f.Some? && k < |path| - 1 && nodes[d.level][f.value].value.Class? ==>
                  var v := nodes[d.level][f.value].value;
                  Descend(nodes, c, path[..k + 1]) == At(Cursor(d.level + 1, v.nodeStart, v.nodeCount, Some(f.value))))
            && (f.None? && (k < |path| - 1 || d.parent.None?) ==>
                  WriteMulti(nodes, c, path, inNode) == Written(nodes, Err(NotObjectPath)))
            && (f.None? && k == |path| - 1 && d.parent.Some? ==>
                  WriteMulti(nodes, c, path, inNode) == Written(AddChild(nodes, d, LiveNode(inNode.tokenId, path[k], inNode.value)), Ok(None)))
  {
    if k == |path| - 1 {
      assert path[..|path| - 1] == path[..k];
    } else {
      DescendSnoc(nodes, c, path, k);
      if !Descend(nodes, c, path[..k + 1]).At? {
        assert path[..|path| - 1][..k + 1] == path[..k + 1];
        StuckStaysStuck(nodes, c, path[..|path| - 1], k + 1);
      }
    }
  }

  /** When the path already names a node, the write overwrites its token and value and nothing else. */
  lemma WriteFoundOverwrites(nodes: Levels, c: Cursor, path: seq<Id>, inNode: LiveNode)
    requires ClassRunsFit(nodes) && CursorOk(nodes, c) && c.parent.None?
    requires Resolve(nodes, c, path).Some?
    ensures var ptr := Resolve(nodes, c, path).value;
      WriteMulti(nodes, c, path, inNode) == Written(Overwritten(nodes, ptr.level, ptr.index, inNode), Ok(None))
  {
  }

  /**
   * A Multi write fails with "not an object path" exactly when a segment
   * before the last is missing or not a class, or the path has one segment
   * that the starting run does not have; it fails with the second
   * unexpected problem exactly for an empty path.
   */
  lemma WriteMultiErrors(nodes: Levels, c: Cursor, path: seq<Id>, inNode: LiveNode)
    requires ClassRunsFit(nodes) && CursorOk(nodes, c) && c.parent.None?
    ensures (WriteMulti(nodes, c, path, inNode).result == Err(UnexpectedProblem2)) <==> path == []
    ensures (WriteMulti(nodes, c, path, inNode).result == Err(NotObjectPath))
              <==> (path != [] && (!Descend(nodes, c, path[..|path| - 1]).At? || (|path| == 1 && Resolve(nodes, c, path).None?)))
    ensures WriteMulti(nodes, c, path, inNode).result.Ok? ==> WriteMulti(nodes, c, path, inNode).result == Ok(None)
  {
    if path != [] && Descend(nodes, c, path[..|path| - 1]).At? {
      var d := Descend(nodes, c, path[..|path| - 1]).cursor;
      assert d.parent.None? <==> |path| == 1;
    }
  }

  /** Overwriting a node's token and value keeps every run inside its level when the new value's run fits. */
  lemma OverwrittenKeepsFit(nodes: Levels, l: nat, j: nat, inNode: LiveNode)
    requires ClassRunsFit(nodes) && l < |nodes| && j < |nodes[l]| && RunFits(nodes, l, inNode.value)
    ensures ClassRunsFit(Overwritten(nodes, l, j, inNode))
  {
  }

  /**
   * Adding a child keeps every run inside its level: the class's new run
   * ends the level, copied children keep runs that lay in the level below,
   * and the levels only grow.
   */
  lemma AddChildKeepsFit(nodes: Levels, c: Cursor, node: LiveNode)
    requires ClassRunsFit(nodes) && CursorOk(nodes, c) && c.parent.Some? && RunFits(nodes, c.level, node.value)
    ensures ClassRunsFit(AddChild(nodes, c, node))
  {
    var r: Levels := AddChild(nodes, c, node);
    var s := NewRunStart(nodes, c);
    AddChildEffects(nodes, c, node);
    forall l: int, i: int | 0 <= l < |r| && 0 <= i < |r[l]| && r[l][i].value.Class?
      ensures l + 1 < |r| && r[l][i].value.nodeStart + r[l][i].value.nodeCount <= |r[l + 1]|
    {
      if l == c.level - 1 {
        if i != c.parent.value {
          assert r[l][i] == nodes[l][i];
        }
      } else if l == c.level {
        if i < |nodes[l]| {
          assert r[l][i] == nodes[l][i];
        } else if i < s + c.count {
          assert r[l][i] == r[l][s .. s + c.count][i - s] == nodes[l][c.start + i - s];
        }
        assert l + 1 < |r| ==> r[l + 1] == nodes[l + 1];
      } else {
        assert r[l] == nodes[l];
      }
    }
  }

  /** The levels a Multi write reaches last: the one holding the path's final segment. */
  function WriteLevel(level: nat, inNode: LiveNode): nat {
    if ToType(inNode.id).Multi? && ToType(inNode.id).count > 0 then level + ToType(inNode.id).count - 1 else level
  }

  /** A Multi write keeps every run inside its level when the written value's run fits where it lands. */
  lemma WriteMultiKeepsFit(nodes: Levels, c: Cursor, path: seq<Id>, inNode: LiveNode)
    requires ClassRunsFit(nodes) && CursorOk(nodes, c) && c.parent.None?
    requires path != [] ==> RunFits(nodes, c.level + |path| - 1, inNode.value)
    ensures ClassRunsFit(WriteMulti(nodes, c, path, inNode).nodes)
  {
    if path != [] {
      var last := path[|path| - 1];
      match Descend(nodes, c, path[..|path| - 1]) {
        case At(d) =>
          match FindInRun(nodes[d.level], d.start, d.count, last) {
            case Some(j) =>
              OverwrittenKeepsFit(nodes, d.level, j, inNode);
            case None =>
              if d.parent.Some? {
                AddChildKeepsFit(nodes, d, LiveNode(inNode.tokenId, last, inNode.value));
              }
          }
        case Missing =>
        case NotClass =>
      }
    }
  }

  /**
   * `write_or_add_node` keeps every class's run inside the next level,
   * provided the value it writes fits where it lands, and never adds or
   * removes a level.
   */
  lemma WriteOrAddKeepsFit(nodes: Levels, level: nat, start: nat, count: nat, multiIds: seq<Id>, inNode: LiveNode)
    requires WriteOk(nodes, level, start, count, multiIds, inNode) && ClassRunsFit(nodes)
    requires RunFits(nodes, WriteLevel(level, inNode), inNode.value)
    ensures var w := WriteOrAdd(nodes, level, start, count, multiIds, inNode);
      ClassRunsFit(w.nodes) && |w.nodes| == |nodes|
  {
    var t := ToType(inNode.id);
    if t.Multi? {
      WriteMultiKeepsFit(nodes, Cursor(level, start, count, None), MultiPath(multiIds, inNode.id), inNode);
    } else {
      var w := WriteOrAdd(nodes, level, start, count, multiIds, inNode);
      var row := nodes[level];
      if t.Single? && w.result == Ok(None) {
        var i0 :| start <= i0 < |row| && w.nodes[level] == row[i0 := inNode];
      }
      assert forall i | 0 <= i < |w.nodes[level]| :: w.nodes[level][i] == inNode || (i < |row| && w.nodes[level][i] == row[i]);
      forall l: int, i: int | 0 <= l < |w.nodes| && 0 <= i < |w.nodes[l]| && w.nodes[l][i].value.Class?
        ensures l + 1 < |w.nodes| && w.nodes[l][i].value.nodeStart + w.nodes[l][i].value.nodeCount <= |w.nodes[l + 1]|
      {
        if l != level {
          assert w.nodes[l] == nodes[l];
        }
      }
    }
  }

  /** A run is searched by id alone: two rows with the same ids over the run give the same answer. */
  lemma FindInRunSameIds(a: seq<LiveNode>, b: seq<LiveNode>, start: nat, count: nat, id: Id)
    requires start + count <= |a| && start + count <= |b|
    requires forall k | start <= k < start + count :: a[k].id == b[k].id
    ensures FindInRun(a, start, count, id) == FindInRun(b, start, count, id)
  {
  }

  /** Following a prefix reads only the levels it passes through. */
  lemma {:induction false} DescendSameRows(nodes: Levels, r: Levels, c: Cursor, prefix: seq<Id>)
    requires ClassRunsFit(nodes) && CursorOk(nodes, c) && ClassRunsFit(r) && CursorOk(r, c) && |r| == |nodes|
    requires forall l | c.level <= l < |nodes| && l < c.level + |prefix| :: r[l] == nodes[l]
    ensures Descend(r, c, prefix) == Descend(nodes, c, prefix)
    decreases |prefix|
  {
    if prefix != [] {
      DescendSameRows(nodes, r, c, prefix[..|prefix| - 1]);
    }
  }

  /**
   * How a node at level `l` reads after `AddChild` at `d`: as before, or,
   * for the class that took the child, owning its run one longer at `s`.
   */
  predicate Agrees(l: nat, x: LiveNode, y: LiveNode, d: Cursor, s: nat) {
    x.id == y.id && x.tokenId == y.tokenId
    && (x.value == y.value
        || (l + 1 == d.level && OwnsRun(x.value, d.start, d.count) && OwnsRun(y.value, s, d.count + 1)))
  }

  /** Every old node reads, where it was, as it does after `AddChild`. */
  predicate AgreesEverywhere(nodes: Levels, r: Levels, d: Cursor, s: nat) {
    |r| == |nodes|
    && forall l, i {:trigger nodes[l][i]} | 0 <= l < |nodes| && 0 <= i < |nodes[l]| ::
         i < |r[l]| && Agrees(l, nodes[l][i], r[l][i], d, s)
  }

  /**
   * The class at `d.parent` now owns the run one longer at `s`; its level
   * keeps its length and its ids, and the levels above it are untouched.
   */
  predicate ParentReowned(nodes: Levels, r: Levels, d: Cursor, s: nat) {
    |r| == |nodes| && 1 <= d.level < |nodes| && d.parent.Some? && d.parent.value < |nodes[d.level - 1]|
    && |r[d.level - 1]| == |nodes[d.level - 1]|
    && (forall l | 0 <= l < d.level - 1 :: r[l] == nodes[l])
    && (forall l, i {:trigger nodes[l][i]} | l + 1 == d.level && 0 <= i < |nodes[l]| :: i < |r[l]| && r[l][i].id == nodes[l][i].id)
    && OwnsRun(r[d.level - 1][d.parent.value].value, s, d.count + 1)
  }

  /** The class's old children reappear, in order, at `s`, followed by one more node. */
  predicate RunMoved(nodes: Levels, r: Levels, d: Cursor, s: nat) {
    |r| == |nodes| && d.level < |nodes| && d.start + d.count <= |nodes[d.level]| && s + d.count + 1 <= |r[d.level]|
    && forall i | d.start <= i < d.start + d.count :: r[d.level][i - d.start + s] == nodes[d.level][i]
  }

  /**
   * What `AddChild` at `d` keeps, as the new levels `r` read: no level
   * shrinks, every old node agrees where it was, the class owns the run one
   * longer at `s`, and that run begins with the class's old children.
   */
  predicate KeepsOldNodes(nodes: Levels, r: Levels, d: Cursor, s: nat) {
    (forall l | 0 <= l < |nodes| && l < |r| :: |nodes[l]| <= |r[l]|)
    && AgreesEverywhere(nodes, r, d, s) && ParentReowned(nodes, r, d, s) && RunMoved(nodes, r, d, s)
  }

  lemma AddChildAgrees(nodes: Levels, d: Cursor, node: LiveNode)
    requires CursorOk(nodes, d) && d.parent.Some?
    ensures AgreesEverywhere(nodes, AddChild(nodes, d, node), d, NewRunStart(nodes, d))
  {
    var r: Levels := AddChild(nodes, d, node);
    AddChildEffects(nodes, d, node);
    forall l: int, i: int | 0 <= l < |nodes| && 0 <= i < |nodes[l]|
      ensures i < |r[l]| && Agrees(l, nodes[l][i], r[l][i], d, NewRunStart(nodes, d))
    {
      if l == d.level {
        assert r[l][i] == r[l][..|nodes[l]|][i];
      } else if l != d.level - 1 || i != d.parent.value {
        assert r[l][i] == nodes[l][i];
      }
    }
  }

  lemma AddChildReowns(nodes: Levels, d: Cursor, node: LiveNode)
    requires CursorOk(nodes, d) && d.parent.Some?
    ensures ParentReowned(nodes, AddChild(nodes, d, node), d, NewRunStart(nodes, d))
  {
    var r: Levels := AddChild(nodes, d, node);
    AddChildEffects(nodes, d, node);
    forall l, i | l + 1 == d.level && 0 <= i < |nodes[l]|
      ensures i < |r[l]| && r[l][i].id == nodes[l][i].id
    {
      if i != d.parent.value {
        assert r[l][i] == nodes[l][i];
      }
    }
  }

  lemma AddChildMovesRun(nodes: Levels, d: Cursor, node: LiveNode)
    requires CursorOk(nodes, d) && d.parent.Some?
    ensures var r := AddChild(nodes, d, node); var s := NewRunStart(nodes, d);
      RunMoved(nodes, r, d, s) && r[d.level][s + d.count] == node
  {
    var r := AddChild(nodes, d, node);
    var row := nodes[d.level];
    if |row| == d.start + d.count {
      assert r[d.level] == row + [node];
      MovedRow(row, r[d.level], d.start, d.count, d.start, node);
    } else {
      assert r[d.level] == row + row[d.start .. d.start + d.count] + [node];
      MovedRow(row, r[d.level], d.start, d.count, |row|, node);
    }
  }

  /** The row `AddChild` leaves at the class's level: the old children appear at `s`, then the new node. */
  lemma MovedRow(row: seq<LiveNode>, grown: seq<LiveNode>, start: nat, count: nat, s: nat, node: LiveNode)
    requires start + count <= |row|
    requires (s == start && start + count == |row| && grown == row + [node])
          || (s == |row| && grown == row + row[start .. start + count] + [node])
    ensures s + count + 1 <= |grown| && grown[s + count] == node
    ensures forall i | start <= i < start + count :: grown[i - start + s] == row[i]
  {
    if s == start && start + count == |row| {
      assert grown[s + count] == ([node])[0];
      forall i | start <= i < start + count
        ensures grown[i - start + s] == row[i]
      {
        assert grown[i] == row[i];
      }
    } else {
      var run := row[start .. start + count];
      assert grown == (row + run) + [node];
      assert grown[s + count] == ([node])[0];
      forall i | start <= i < start + count
        ensures grown[i - start + s] == row[i]
      {
        assert grown[i - start + s] == run[i - start];
      }
    }
  }

  /** `AddChild` keeps the old nodes, and puts the new one right after the class's old children. */
  lemma AddChildKeepsOldNodes(nodes: Levels, d: Cursor, node: LiveNode)
    requires CursorOk(nodes, d) && d.parent.Some?
    ensures var r := AddChild(nodes, d, node); var s := NewRunStart(nodes, d);
      KeepsOldNodes(nodes, r, d, s) && r[d.level][s + d.count] == node
  {
    AddChildAgrees(nodes, d, node);
    AddChildReowns(nodes, d, node);
    AddChildMovesRun(nodes, d, node);
  }

  /** Entering the class that took the child, from the run that holds it, now gives its longer run. */
  lemma EnterParentAgain(nodes: Levels, r: Levels, e: Cursor, d: Cursor, s: nat, id: Id)
    requires ClassRunsFit(nodes) && CursorOk(nodes, e) && ClassRunsFit(r) && CursorOk(r, e)
    requires ParentReowned(nodes, r, d, s) && Enter(nodes, e, id) == At(d)
    ensures Enter(r, e, id) == At(Cursor(d.level, s, d.count + 1, d.parent))
  {
    FindInRunSameIds(nodes[e.level], r[e.level], e.start, e.count, id);
  }

  /**
   * After adding a child to the class a path leads to, the same path leads
   * to that class again, now at its run one longer.
   */
  lemma ReenterParent(nodes: Levels, r: Levels, c: Cursor, p: seq<Id>, d: Cursor, s: nat)
    requires ClassRunsFit(nodes) && CursorOk(nodes, c) && ClassRunsFit(r) && CursorOk(r, c)
    requires p != [] && Descend(nodes, c, p) == At(d) && ParentReowned(nodes, r, d, s)
    ensures Descend(r, c, p) == At(Cursor(d.level, s, d.count + 1, d.parent))
  {
    var q := p[..|p| - 1];
    DescendSameRows(nodes, r, c, q);
    var e := Descend(nodes, c, q).cursor;
    EnterParentAgain(nodes, r, e, d, s, p[|p| - 1]);
  }

  /** In the longer run, the old children do not match the new node's id, so the scan finds the new node. */
  lemma AddedChildFound(nodes: Levels, r: Levels, d: Cursor, s: nat, id: Id)
    requires RunMoved(nodes, r, d, s) && r[d.level][s + d.count].id == id
    requires FindInRun(nodes[d.level], d.start, d.count, id).None?
    ensures FindInRun(r[d.level], s, d.count + 1, id) == Some(s + d.count)
  {
    forall x | s <= x < s + d.count
      ensures r[d.level][x].id != id
    {
      assert r[d.level][x] == nodes[d.level][x - s + d.start];
    }
  }

  /**
   * Adding a child named by the last segment of a path whose other segments
   * lead to its class: the path then resolves to the new child.
   */
  lemma NewChildResolves(nodes: Levels, r: Levels, c: Cursor, path: seq<Id>, d: Cursor, s: nat)
    requires ClassRunsFit(nodes) && CursorOk(nodes, c) && ClassRunsFit(r) && CursorOk(r, c)
    requires |path| >= 2 && Descend(nodes, c, path[..|path| - 1]) == At(d)
    requires ParentReowned(nodes, r, d, s) && RunMoved(nodes, r, d, s)
    requires r[d.level][s + d.count].id == path[|path| - 1]
    requires FindInRun(nodes[d.level], d.start, d.count, path[|path| - 1]).None?
    ensures Descend(r, c, path[..|path| - 1]) == At(Cursor(d.level, s, d.count + 1, d.parent))
    ensures FindInRun(r[d.level], s, d.count + 1, path[|path| - 1]) == Some(s + d.count)
  {
    var last := path[|path| - 1];
    ReenterParent(nodes, r, c, path[..|path| - 1], d, s);
    AddedChildFound(nodes, r, d, s, last);
  }

  /** `NewChildResolves`, carried through to the whole path. */
  lemma NewChildResolvesTo(nodes: Levels, r: Levels, c: Cursor, path: seq<Id>, d: Cursor, s: nat)
    requires ClassRunsFit(nodes) && CursorOk(nodes, c) && ClassRunsFit(r) && CursorOk(r, c)
    requires |path| >= 2 && Descend(nodes, c, path[..|path| - 1]) == At(d)
    requires ParentReowned(nodes, r, d, s) && RunMoved(nodes, r, d, s)
    requires r[d.level][s + d.count].id == path[|path| - 1]
    requires FindInRun(nodes[d.level], d.start, d.count, path[|path| - 1]).None?
    ensures Resolve(r, c, path) == Some(LiveNodePtr(d.level, s + d.count))
  {
    NewChildResolves(nodes, r, c, path, d, s);
    ResolveAtRun(r, c, path, d.level, s, d.count + 1, d.parent, s + d.count);
  }

  /** `AddChild` at the class a path's other segments lead to keeps the levels well formed, and the whole path then resolves to the new child. */
  lemma AddChildReaches(nodes: Levels, c: Cursor, path: seq<Id>, d: Cursor, node: LiveNode, r: Levels, s: nat)
    requires ClassRunsFit(nodes) && CursorOk(nodes, c) && c.parent.None?
    requires |path| >= 2 && Descend(nodes, c, path[..|path| - 1]) == At(d) && d.parent.Some?
    requires node.id == path[|path| - 1] && FindInRun(nodes[d.level], d.start, d.count, node.id).None?
    requires RunFits(nodes, d.level, node.value)
    requires r == AddChild(nodes, d, node) && s == NewRunStart(nodes, d)
    ensures ClassRunsFit(r) && CursorOk(r, c)
    ensures r[d.level][s + d.count] == node
    ensures c == Root(nodes) ==> Root(r) == c
    ensures Resolve(r, c, path) == Some(LiveNodePtr(d.level, s + d.count))
  {
    AddChildKeepsFit(nodes, d, node);
    AddChildReowns(nodes, d, node);
    AddChildMovesRun(nodes, d, node);
    NewChildResolvesTo(nodes, r, c, path, d, s);
  }

  /** What the last segment of a write does in the run of `c`: overwrite the node named `id`, or add one to the class owning the run. */
  function LastWritten(nodes: Levels, c: Cursor, id: Id, inNode: LiveNode): Written
    requires CursorOk(nodes, c)
  {
    match FindInRun(nodes[c.level], c.start, c.count, id)
    case Some(j) => Written(Overwritten(nodes, c.level, j, inNode), Ok(None))
    case None =>
      if c.parent.None? then Written(nodes, Err(NotObjectPath))
      else Written(AddChild(nodes, c, LiveNode(inNode.tokenId, id, inNode.value)), Ok(None))
  }

  /** Once every segment but the last has led to a class's run, `WriteMulti` is the last segment's write there. */
  lemma WriteMultiLast(nodes: Levels, c: Cursor, path: seq<Id>, inNode: LiveNode, d: Cursor)
    requires ClassRunsFit(nodes) && CursorOk(nodes, c) && c.parent.None?
    requires path != [] && Descend(nodes, c, path[..|path| - 1]) == At(d)
    ensures WriteMulti(nodes, c, path, inNode) == LastWritten(nodes, d, path[|path| - 1], inNode)
  {
  }

  /** When the path's other segments lead to a class and its last is not in that class's run, `WriteMulti` adds the child there. */
  lemma WriteAddsChild(nodes: Levels, c: Cursor, path: seq<Id>, inNode: LiveNode)
    requires ClassRunsFit(nodes) && CursorOk(nodes, c) && c.parent.None?
    requires |path| >= 2 && Descend(nodes, c, path[..|path| - 1]).At? && Resolve(nodes, c, path).None?
    ensures var d := Descend(nodes, c, path[..|path| - 1]).cursor;
      d.parent.Some? && FindInRun(nodes[d.level], d.start, d.count, path[|path| - 1]).None?
      && WriteMulti(nodes, c, path, inNode) == Written(AddChild(nodes, d, LiveNode(inNode.tokenId, path[|path| - 1], inNode.value)), Ok(None))
  {
    WriteStep(nodes, c, path, inNode, |path| - 1);
  }

  /**
   * Write, then scan: when every segment but the last is a class path and
   * the last segment is not in the final run, the write adds it, and the
   * same path then resolves to the new node, which sits right after the
   * class's old children and carries the written token and value. Every
   * run still lies inside its level.
   */
  lemma WriteAddsResolvable(nodes: Levels, c: Cursor, path: seq<Id>, inNode: LiveNode, d: Cursor)
    requires ClassRunsFit(nodes) && CursorOk(nodes, c) && c.parent.None?
    requires |path| >= 2 && Descend(nodes, c, path[..|path| - 1]) == At(d) && Resolve(nodes, c, path).None?
    requires RunFits(nodes, d.level, inNode.value)
    ensures WriteMulti(nodes, c, path, inNode).result == Ok(None)
    ensures var w := WriteMulti(nodes, c, path, inNode); ClassRunsFit(w.nodes) && CursorOk(w.nodes, c)
    ensures Resolve(WriteMulti(nodes, c, path, inNode).nodes, c, path) == Some(LiveNodePtr(d.level, NewRunStart(nodes, d) + d.count))
    ensures WriteMulti(nodes, c, path, inNode).nodes[d.level][NewRunStart(nodes, d) + d.count]
              == LiveNode(inNode.tokenId, path[|path| - 1], inNode.value)
    ensures c == Root(nodes) ==> Root(WriteMulti(nodes, c, path, inNode).nodes) == c
  {
    var node := LiveNode(inNode.tokenId, path[|path| - 1], inNode.value);
    WriteAddsChild(nodes, c, path, inNode);
    AddChildReaches(nodes, c, path, d, node, AddChild(nodes, d, node), NewRunStart(nodes, d));
  }

  /**
   * Write, then scan, when the path already names a node: the write keeps
   * the node where it is, so the path resolves to the same place, which now
   * holds the written token and value under its own id.
   */
  lemma WriteFoundStaysResolvable(nodes: Levels, c: Cursor, path: seq<Id>, inNode: LiveNode)
    requires ClassRunsFit(nodes) && CursorOk(nodes, c) && c.parent.None?
    requires Resolve(nodes, c, path).Some? && RunFits(nodes, c.level + |path| - 1, inNode.value)
    ensures var ptr := Resolve(nodes, c, path).value;
      var w := WriteMulti(nodes, c, path, inNode);
      ClassRunsFit(w.nodes) && CursorOk(w.nodes, c)
      && Resolve(w.nodes, c, path) == Some(ptr)
      && w.nodes[ptr.level][ptr.index] == LiveNode(inNode.tokenId, path[|path| - 1], inNode.value)
  {
    var ptr := Resolve(nodes, c, path).value;
    WriteFoundOverwrites(nodes, c, path, inNode);
    var r := Overwritten(nodes, ptr.level, ptr.index, inNode);
    OverwrittenKeepsFit(nodes, ptr.level, ptr.index, inNode);
    var p := path[..|path| - 1];
    forall l | c.level <= l < |nodes| && l < c.level + |p|
      ensures r[l] == nodes[l]
    {
      assert l != ptr.level;
    }
    DescendSameRows(nodes, r, c, p);
    var d := Descend(nodes, c, p).cursor;
    FindInRunSameIds(nodes[d.level], r[d.level], d.start, d.count, path[|path| - 1]);
  }

  /** Two runs, one of the old levels and one of the new, whose nodes agree one for one. */
  predicate RunsAgree(nodes: Levels, r: Levels, a: Cursor, b: Cursor, d: Cursor, s: nat) {
    a.level == b.level && a.level < |nodes| && b.level < |r| && a.count <= b.count
    && a.start + a.count <= |nodes[a.level]| && b.start + b.count <= |r[b.level]|
    && forall i | a.start <= i < a.start + a.count ::
         Agrees(a.level, nodes[a.level][i], r[b.level][i - a.start + b.start], d, s)
  }

  /** A scan of agreeing runs finds the same segment at the same offset. */
  lemma FindAgrees(nodes: Levels, r: Levels, a: Cursor, b: Cursor, d: Cursor, s: nat, id: Id)
    requires RunsAgree(nodes, r, a, b, d, s)
    requires FindInRun(nodes[a.level], a.start, a.count, id).Some?
    ensures var j := FindInRun(nodes[a.level], a.start, a.count, id).value;
      FindInRun(r[b.level], b.start, b.count, id) == Some(j - a.start + b.start)
  {
    var j := FindInRun(nodes[a.level], a.start, a.count, id).value;
    var t := j - a.start + b.start;
    assert r[b.level][t].id == id;
    forall x | b.start <= x < t
      ensures r[b.level][x].id != id
    {
      assert Agrees(a.level, nodes[a.level][x - b.start + a.start], r[b.level][x], d, s);
    }
  }

  /** One step of `DescendAgrees`: entering the same class from agreeing runs. */
  lemma EnterAgrees(nodes: Levels, r: Levels, a: Cursor, b: Cursor, d: Cursor, s: nat, id: Id)
    requires ClassRunsFit(nodes) && CursorOk(nodes, a) && ClassRunsFit(r) && CursorOk(r, b)
    requires KeepsOldNodes(nodes, r, d, s) && RunsAgree(nodes, r, a, b, d, s)
    requires Enter(nodes, a, id).At?
    ensures Enter(r, b, id).At? && RunsAgree(nodes, r, Enter(nodes, a, id).cursor, Enter(r, b, id).cursor, d, s)
  {
    FindAgrees(nodes, r, a, b, d, s, id);
    var j := FindInRun(nodes[a.level], a.start, a.count, id).value;
    var k := j - a.start + b.start;
    assert Agrees(a.level, nodes[a.level][j], r[b.level][k], d, s);
    var a2 := Enter(nodes, a, id).cursor;
    var b2 := Enter(r, b, id).cursor;
    if nodes[a.level][j].value == r[b.level][k].value {
      assert a2.level == b2.level && a2.start == b2.start && a2.count == b2.count;
      SameRunAgrees(nodes, r, d, s, a2, b2);
    } else {
      assert a2.level == b2.level == d.level && a2.start == d.start && a2.count == d.count;
      assert b2.start == s && b2.count == d.count + 1;
      MovedRunAgrees(nodes, r, d, s, a2, b2);
    }
  }

  /** A run of the old levels agrees with the same run of the new ones. */
  lemma SameRunAgrees(nodes: Levels, r: Levels, d: Cursor, s: nat, a: Cursor, b: Cursor)
    requires KeepsOldNodes(nodes, r, d, s)
    requires b.level == a.level && b.start == a.start && b.count == a.count
    requires a.level < |nodes| && a.start + a.count <= |nodes[a.level]| && b.start + b.count <= |r[b.level]|
    ensures RunsAgree(nodes, r, a, b, d, s)
  {
    forall i | a.start <= i < a.start + a.count
      ensures Agrees(a.level, nodes[a.level][i], r[b.level][i - a.start + b.start], d, s)
    {
      assert i - a.start + b.start == i;
    }
  }

  /** The class's old run agrees with its new, longer run. */
  lemma MovedRunAgrees(nodes: Levels, r: Levels, d: Cursor, s: nat, a: Cursor, b: Cursor)
    requires KeepsOldNodes(nodes, r, d, s)
    requires a.level == b.level == d.level && a.start == d.start && a.count == d.count
    requires b.start == s && b.count == d.count + 1
    ensures RunsAgree(nodes, r, a, b, d, s)
  {
    forall i | a.start <= i < a.start + a.count
      ensures r[b.level][i - a.start + b.start] == nodes[a.level][i]
    {
    }
  }

  /**
   * Following a prefix that led somewhere before `AddChild` leads to an
   * agreeing run after it.
   */
  lemma {:induction false} DescendAgrees(nodes: Levels, r: Levels, c: Cursor, d: Cursor, s: nat, prefix: seq<Id>)
    requires ClassRunsFit(nodes) && CursorOk(nodes, c) && ClassRunsFit(r) && CursorOk(r, c)
    requires KeepsOldNodes(nodes, r, d, s) && Descend(nodes, c, prefix).At?
    ensures Descend(r, c, prefix).At?
      && RunsAgree(nodes, r, Descend(nodes, c, prefix).cursor, Descend(r, c, prefix).cursor, d, s)
    decreases |prefix|
  {
    if prefix == [] {
      forall i | c.start <= i < c.start + c.count
        ensures Agrees(c.level, nodes[c.level][i], r[c.level][i - c.start + c.start], d, s)
      {
      }
    } else {
      var q := prefix[..|prefix| - 1];
      DescendAgrees(nodes, r, c, d, s, q);
      EnterAgrees(nodes, r, Descend(nodes, c, q).cursor, Descend(r, c, q).cursor, d, s, prefix[|prefix| - 1]);
    }
  }

  /** A resolve that reaches the run `a` and finds its last segment at `j` names `j`. */
  lemma ResolveAt(nodes: Levels, c: Cursor, path: seq<Id>, a: Cursor, j: nat)
    requires ClassRunsFit(nodes) && CursorOk(nodes, c) && path != []
    requires Descend(nodes, c, path[..|path| - 1]) == At(a)
    requires FindInRun(nodes[a.level], a.start, a.count, path[|path| - 1]) == Some(j)
    ensures Resolve(nodes, c, path) == Some(LiveNodePtr(a.level, j))
  {
  }

  /** `ResolveAt`, with the run's cursor given field by field. */
  lemma ResolveAtRun(nodes: Levels, c: Cursor, path: seq<Id>, level: nat, start: nat, count: nat, parent: Option<nat>, j: nat)
    requires ClassRunsFit(nodes) && CursorOk(nodes, c) && path != []
    requires Descend(nodes, c, path[..|path| - 1]) == At(Cursor(level, start, count, parent))
    requires FindInRun(nodes[level], start, count, path[|path| - 1]) == Some(j)
    ensures Resolve(nodes, c, path) == Some(LiveNodePtr(level, j))
  {
  }

  /** The last step of a resolve, from agreeing runs: the same segment is found, at an agreeing node. */
  lemma ResolveFromAgreeing(nodes: Levels, r: Levels, c: Cursor, d: Cursor, s: nat, path: seq<Id>, a: Cursor, b: Cursor, j: nat)
    requires ClassRunsFit(nodes) && CursorOk(nodes, c) && ClassRunsFit(r) && CursorOk(r, c) && path != []
    requires Descend(nodes, c, path[..|path| - 1]) == At(a) && Descend(r, c, path[..|path| - 1]) == At(b)
    requires FindInRun(nodes[a.level], a.start, a.count, path[|path| - 1]) == Some(j)
    requires RunsAgree(nodes, r, a, b, d, s)
    ensures Resolve(nodes, c, path) == Some(LiveNodePtr(a.level, j))
    ensures Resolve(r, c, path) == Some(LiveNodePtr(a.level, j - a.start + b.start))
    ensures Agrees(a.level, nodes[a.level][j], r[a.level][j - a.start + b.start], d, s)
  {
    FindAgrees(nodes, r, a, b, d, s, path[|path| - 1]);
    ResolveAt(nodes, c, path, a, j);
    ResolveAt(r, c, path, b, j - a.start + b.start);
  }

  /** A path that resolved before `AddChild` resolves after it, at the same level, to an agreeing node. */
  lemma ResolveAgrees(nodes: Levels, r: Levels, c: Cursor, d: Cursor, s: nat, path: seq<Id>)
    requires ClassRunsFit(nodes) && CursorOk(nodes, c) && ClassRunsFit(r) && CursorOk(r, c)
    requires KeepsOldNodes(nodes, r, d, s) && Resolve(nodes, c, path).Some?
    ensures var was := Resolve(nodes, c, path).value;
      Resolve(r, c, path).Some? && Resolve(r, c, path).value.level == was.level
      && Agrees(was.level, nodes[was.level][was.index], r[was.level][Resolve(r, c, path).value.index], d, s)
  {
    var q := path[..|path| - 1];
    DescendAgrees(nodes, r, c, d, s, q);
    var a := Descend(nodes, c, q).cursor;
    var j := FindInRun(nodes[a.level], a.start, a.count, path[|path| - 1]).value;
    var b := Descend(r, c, q).cursor;
    ResolveFromAgreeing(nodes, r, c, d, s, path, a, b, j);
    var was := Resolve(nodes, c, path).value;
    var now := Resolve(r, c, path).value;
    assert was.level == now.level == a.level && was.index == j && now.index == j - a.start + b.start;
  }

  /** A path that resolved before `AddChild` resolves after it, at the same level, to an agreeing node. */
  lemma AddChildKeepsResolvable(nodes: Levels, c: Cursor, d: Cursor, node: LiveNode, path: seq<Id>)
    requires ClassRunsFit(nodes) && CursorOk(nodes, c) && c.parent.None?
    requires CursorOk(nodes, d) && d.parent.Some? && RunFits(nodes, d.level, node.value)
    requires Resolve(nodes, c, path).Some?
    ensures var r := AddChild(nodes, d, node); var was := Resolve(nodes, c, path).value;
      ClassRunsFit(r) && CursorOk(r, c) && Resolve(r, c, path).Some?
      && var now := Resolve(r, c, path).value;
         now.level == was.level && Agrees(was.level, nodes[was.level][was.index], r[now.level][now.index], d, NewRunStart(nodes, d))
  {
    AddChildKeepsFit(nodes, d, node);
    AddChildKeepsOldNodes(nodes, d, node);
    ResolveAgrees(nodes, AddChild(nodes, d, node), c, d, NewRunStart(nodes, d), path);
  }

  /**
   * Write, then scan, for every other path: when the write adds a child,
   * each path that resolved before still resolves, at the same level, to a
   * node with the same id and token, and the same value unless it is the
   * class that took the child, which now owns its run one longer.
   */
  lemma WriteAddKeepsResolvable(nodes: Levels, c: Cursor, path: seq<Id>, inNode: LiveNode, other: seq<Id>)
    requires ClassRunsFit(nodes) && CursorOk(nodes, c) && c.parent.None?
    requires |path| >= 2 && Descend(nodes, c, path[..|path| - 1]).At? && Resolve(nodes, c, path).None?
    requires RunFits(nodes, c.level + |path| - 1, inNode.value)
    requires Resolve(nodes, c, other).Some?
    ensures var d := Descend(nodes, c, path[..|path| - 1]).cursor;
      var w := WriteMulti(nodes, c, path, inNode);
      var was := Resolve(nodes, c, other).value;
      ClassRunsFit(w.nodes) && CursorOk(w.nodes, c) && Resolve(w.nodes, c, other).Some?
      && var now := Resolve(w.nodes, c, other).value;
         now.level == was.level
         && Agrees(was.level, nodes[was.level][was.index], w.nodes[now.level][now.index], d, NewRunStart(nodes, d))
  {
    var d := Descend(nodes, c, path[..|path| - 1]).cursor;
    WriteStep(nodes, c, path, inNode, |path| - 1);
    AddChildKeepsResolvable(nodes, c, d, LiveNode(inNode.tokenId, path[|path| - 1], inNode.value), other);
  }
}

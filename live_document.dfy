/**
 * `LiveDocument`: the parsed form of one live file, updated in place. Its
 * lookups and its write are proved to compute what `LiveStore` specifies.
 */
module LiveDocuments {
  import opened Wrappers
  import opened Words
  import opened Ids
  import opened LiveNodes
  import opened LiveStore

  /** The text `crate`. */
  const CRATE: Utf8 := [0x63, 0x72, 0x61, 0x74, 0x65]

  /** `id!(crate)`: the id of `crate`, as `CrateIdIsHash` shows. */
  const CRATE_ID: Id := 0x55f8_4848_348f_f3d2

  class LiveDocument {
    var recompile: bool
    var nodes: Levels
    var multiIds: seq<Id>
    var strings: seq<char>
    var tokens: seq<TokenWithSpan>
    var scopes: seq<LiveScopeItem>

    /** There is always a level 0. */
    predicate Valid()
      reads this
    {
      |nodes| >= 1
    }

    /** `LiveDocument::new`: one empty level and empty pools, marked for recompiling. */
    constructor New()
      ensures Valid()
      ensures recompile && nodes == [[]] && multiIds == [] && strings == [] && tokens == [] && scopes == []
    {
      recompile := true;
      nodes := [[]];
      multiIds := [];
      strings := [];
      tokens := [];
      scopes := [];
    }

    /**
     * `restart_from`: every level is emptied but kept, the three pools are
     * copied from `other`, and the scopes are cleared.
     */
    method RestartFrom(other: LiveDocument)
      requires other != this
      modifies this
      ensures |nodes| == old(|nodes|) && forall l | 0 <= l < |nodes| :: nodes[l] == []
      ensures multiIds == other.multiIds && strings == other.strings && tokens == other.tokens
      ensures scopes == [] && recompile == old(recompile)
    {
      for l := 0 to |nodes|
        invariant |nodes| == old(|nodes|)
        invariant forall k | 0 <= k < l :: nodes[k] == []
        invariant recompile == old(recompile)
      {
        nodes := nodes[l := []];
      }
      multiIds := other.multiIds;
      strings := other.strings;
      tokens := other.tokens;
      scopes := [];
    }

    /**
     * `get_level_len`: adds empty levels until `level` exists, then returns
     * its length; existing levels are untouched.
     */
    method GetLevelLen(level: nat) returns (n: nat)
      requires Valid()
      modifies this
      ensures Valid() && level < |nodes|
      ensures |nodes| == if level < old(|nodes|) then old(|nodes|) else level + 1
      ensures nodes[..old(|nodes|)] == old(nodes)
      ensures forall l | old(|nodes|) <= l < |nodes| :: nodes[l] == []
      ensures n == |nodes[level]|
      ensures multiIds == old(multiIds) && strings == old(strings) && tokens == old(tokens)
      ensures scopes == old(scopes) && recompile == old(recompile)
    {
      var len := |nodes| - 1;
      var i := len;
      while i < level
        invariant len <= i && (i <= level || i == len)
        invariant |nodes| == i + 1
        invariant nodes[..old(|nodes|)] == old(nodes)
        invariant forall l | old(|nodes|) <= l < |nodes| :: nodes[l] == []
        invariant multiIds == old(multiIds) && strings == old(strings) && tokens == old(tokens)
        invariant scopes == old(scopes) && recompile == old(recompile)
      {
        nodes := nodes + [[]];
        i := i + 1;
      }
      n := |nodes[level]|;
    }

    /** `push_node`: appends to one level. */
    method PushNode(level: nat, node: LiveNode)
      requires level < |nodes|
      modifies this
      ensures nodes == old(nodes)[level := old(nodes)[level] + [node]]
      ensures multiIds == old(multiIds) && strings == old(strings) && tokens == old(tokens)
      ensures scopes == old(scopes) && recompile == old(recompile)
    {
      nodes := nodes[level := nodes[level] + [node]];
    }

    /** `scan_for_multi`: follows a dotted path from level 0. */
    method ScanForMulti(ids: seq<Id>) returns (r: Option<LiveNodePtr>)
      requires Valid() && ClassRunsFit(nodes)
      ensures r == Resolve(nodes, Root(nodes), ids)
    {
      var nodeStart: nat := 0;
      var nodeCount: nat := |nodes[0]|;
      var level: nat := 0;
      ghost var parent: Option<nat> := None;
      ghost var root := Root(nodes);
      var i := 0;
      while i < |ids|
        invariant i <= |ids| && (i < |ids| || ids == [])
        invariant Descend(nodes, root, ids[..i]) == At(Cursor(level, nodeStart, nodeCount, parent))
      {
        var hit := FindChild(level, nodeStart, nodeCount, ids[i]);
        ResolveStep(nodes, root, ids, i);
        if hit.None? {
          return None;
        }
        var at := hit.value;
        if i == |ids| - 1 {
          return Some(LiveNodePtr(level, at));
        }
        match nodes[level][at].value {
          case Class(_, ns, nc) =>
            parent := Some(at);
            level := level + 1;
            nodeStart := ns;
            nodeCount := nc;
          case _ =>
            return None;
        }
        i := i + 1;
      }
      return None;
    }

    /**
     * `scan_for_multi_for_expand`: follows segments `1 .. id_count` of a
     * multi id in `multiIds` from the given run, and says why it fails.
     */
    method ScanForMultiForExpand(level: nat, nodeStart: nat, nodeCount: nat, idStart: nat, idCount: nat, multiIds: seq<Id>)
      returns (r: Result<LiveNodePtr, ExpandError>)
      requires ClassRunsFit(nodes) && CursorOk(nodes, Cursor(level, nodeStart, nodeCount, None))
      requires idStart + idCount <= |multiIds|
      ensures r == ExpandResolve(nodes, Cursor(level, nodeStart, nodeCount, None), ExpandPath(multiIds, idStart, idCount))
    {
      ghost var c0 := Cursor(level, nodeStart, nodeCount, None);
      ghost var path := ExpandPath(multiIds, idStart, idCount);
      var nodeStart: nat := nodeStart;
      var nodeCount: nat := nodeCount;
      var level: nat := level;
      ghost var parent: Option<nat> := None;
      // `k` is the source's `i - 1`: the segments before `path[k]` have been followed.
      var k: nat := 0;
      while k + 1 < idCount
        invariant k <= |path| && (k < |path| || path == [])
        invariant Descend(nodes, c0, path[..k]) == At(Cursor(level, nodeStart, nodeCount, parent))
      {
        var id := multiIds[k + 1 + idStart];
        assert id == path[k];
        var hit := FindChild(level, nodeStart, nodeCount, id);
        ExpandStep(nodes, c0, path, k);
        if hit.None? {
          return Err(CannotFindClass);
        }
        var at := hit.value;
        if k + 2 == idCount {
          return Ok(LiveNodePtr(level, at));
        }
        match nodes[level][at].value {
          case Class(_, ns, nc) =>
            parent := Some(at);
            level := level + 1;
            nodeStart := ns;
            nodeCount := nc;
          case _ =>
            return Err(NotAnObjectPath);
        }
        k := k + 1;
      }
      return Err(CannotFindClass);
    }

    /**
     * `write_or_add_node`: writes `inNode` into the run `nodeStart ..
     * nodeStart + nodeCount` of `level`, where its id, a segment path from
     * `inDoc`, a plain name or empty, says how (see `LiveStore.WriteOrAdd`).
     */
    method WriteOrAddNode(level: nat, nodeStart: nat, nodeCount: nat, inDoc: LiveDocument, inNode: LiveNode)
      returns (r: Result<Option<nat>, LiveError>)
      requires inDoc != this
      requires WriteOk(nodes, level, nodeStart, nodeCount, inDoc.multiIds, inNode)
      modifies this
      ensures Written(nodes, r) == WriteOrAdd(old(nodes), level, nodeStart, nodeCount, inDoc.multiIds, inNode)
      ensures Valid() && |nodes| == old(|nodes|)
      ensures ClassRunsFit(old(nodes)) && RunFits(old(nodes), WriteLevel(level, inNode), inNode.value) ==> ClassRunsFit(nodes)
      ensures multiIds == old(multiIds) && strings == old(strings) && tokens == old(tokens)
      ensures scopes == old(scopes) && recompile == old(recompile)
    {
      if ClassRunsFit(nodes) && RunFits(nodes, WriteLevel(level, inNode), inNode.value) {
        WriteOrAddKeepsFit(nodes, level, nodeStart, nodeCount, inDoc.multiIds, inNode);
      }
      match ToType(inNode.id) {
        case Multi(idStart, idCount) =>
          MultiPathIsRun(inDoc.multiIds, inNode.id, idStart, idCount);
          r := WriteMultiNode(level, nodeStart, nodeCount, inDoc.multiIds, inNode, idStart, idCount);
        case Single(_) =>
          r := WriteSingleNode(level, nodeStart, inNode);
        case Empty =>
          var index := |nodes[level]|;
          nodes := nodes[level := nodes[level] + [inNode]];
          r := Ok(Some(index));
        case _ =>
          r := Err(UnexpectedIdType);
      }
    }

    /** The Multi branch of `write_or_add_node`. */
    method WriteMultiNode(level: nat, nodeStart: nat, nodeCount: nat, inIds: seq<Id>, inNode: LiveNode, idStart: nat, idCount: nat)
      returns (r: Result<Option<nat>, LiveError>)
      requires idStart + idCount <= |inIds|
      requires ClassRunsFit(nodes) && level < |nodes| && nodeStart + nodeCount <= |nodes[level]|
      modifies this
      ensures Written(nodes, r) == WriteMulti(old(nodes), Cursor(level, nodeStart, nodeCount, None), inIds[idStart .. idStart + idCount], inNode)
      ensures multiIds == old(multiIds) && strings == old(strings) && tokens == old(tokens)
      ensures scopes == old(scopes) && recompile == old(recompile)
    {
      if idCount == 0 {
        return Err(UnexpectedProblem2);
      }
      ghost var c0 := Cursor(level, nodeStart, nodeCount, None);
      ghost var path := inIds[idStart .. idStart + idCount];
      assert path[..|path| - 1] == inIds[idStart .. idStart + idCount - 1];
      assert path[|path| - 1] == inIds[idStart + idCount - 1];
      var walk := WalkToLast(level, nodeStart, nodeCount, inIds, idStart, idCount);
      if walk.Err? {
        return Err(walk.error);
      }
      // The last segment's iteration, the only one that writes.
      WriteMultiLast(nodes, c0, path, inNode, walk.value);
      r := WriteLast(walk.value, inIds[idStart + idCount - 1], inNode);
    }

    /**
     * The last iteration of `write_or_add_node`'s Multi loop, in the run of
     * `c`: a node named `id` takes the written token and value; with no such
     * node, the class that owns the run (if any) gets it as a new last child.
     */
    method WriteLast(c: Cursor, id: Id, inNode: LiveNode) returns (r: Result<Option<nat>, LiveError>)
      requires CursorOk(nodes, c)
      modifies this
      ensures LastWritten(old(nodes), c, id, inNode) == Written(nodes, r)
      ensures multiIds == old(multiIds) && strings == old(strings) && tokens == old(tokens)
      ensures scopes == old(scopes) && recompile == old(recompile)
    {
      var hit := FindChild(c.level, c.start, c.count, id);
      if hit.Some? {
        OverwriteNode(c.level, hit.value, inNode);
        return Ok(None);
      }
      if c.parent.None? {
        return Err(NotObjectPath);
      }
      AddChildNode(c, LiveNode(inNode.tokenId, id, inNode.value));
      return Ok(None);
    }

    /**
     * The iterations of `write_or_add_node`'s Multi loop before the last:
     * each segment must name a class in the current run, whose run the walk
     * then enters; otherwise the path is not an object path.
     */
    method WalkToLast(level: nat, nodeStart: nat, nodeCount: nat, inIds: seq<Id>, idStart: nat, idCount: nat)
      returns (r: Result<Cursor, LiveError>)
      requires 1 <= idCount && idStart + idCount <= |inIds|
      requires ClassRunsFit(nodes) && level < |nodes| && nodeStart + nodeCount <= |nodes[level]|
      ensures var prefix := inIds[idStart .. idStart + idCount - 1];
        match r
        case Ok(d) => Descend(nodes, Cursor(level, nodeStart, nodeCount, None), prefix) == At(d)
        case Err(e) => e == NotObjectPath && !Descend(nodes, Cursor(level, nodeStart, nodeCount, None), prefix).At?
    {
      ghost var c0 := Cursor(level, nodeStart, nodeCount, None);
      ghost var prefix := inIds[idStart .. idStart + idCount - 1];
      var nodeStart: nat := nodeStart;
      var nodeCount: nat := nodeCount;
      var level: nat := level;
      var lastClass: Option<nat> := None;
      var i := 0;
      while i < idCount - 1
        invariant i <= idCount - 1
        invariant Descend(nodes, c0, prefix[..i]) == At(Cursor(level, nodeStart, nodeCount, lastClass))
      {
        var id := inIds[i + idStart];
        assert id == prefix[i];
        var hit := FindChild(level, nodeStart, nodeCount, id);
        DescendSnoc(nodes, c0, prefix, i);
        if hit.None? {
          StuckStaysStuck(nodes, c0, prefix, i + 1);
          return Err(NotObjectPath);
        }
        var at := hit.value;
        var v := nodes[level][at].value;
        if !v.Class? {
          StuckStaysStuck(nodes, c0, prefix, i + 1);
          return Err(NotObjectPath);
        }
        lastClass := Some(at);
        level := level + 1;
        nodeStart := v.nodeStart;
        nodeCount := v.nodeCount;
        i := i + 1;
      }
      assert prefix[..i] == prefix;
      return Ok(Cursor(level, nodeStart, nodeCount, lastClass));
    }

    /** The inner loop of `write_or_add_node`: the first node of the run whose id is `id`. */
    method FindChild(level: nat, start: nat, count: nat, id: Id) returns (r: Option<nat>)
      requires level < |nodes| && start + count <= |nodes[level]|
      ensures r == FindInRun(nodes[level], start, count, id)
    {
      for j := 0 to count
        invariant forall k | start <= k < start + j :: nodes[level][k].id != id
      {
        if nodes[level][j + start].id == id {
          assert FindInRun(nodes[level], start, count, id) == Some(j + start);
          return Some(j + start);
        }
      }
      return None;
    }

    /** The node at `(level, at)` takes the written node's token and value, in place. */
    method OverwriteNode(level: nat, at: nat, inNode: LiveNode)
      requires level < |nodes| && at < |nodes[level]|
      modifies this
      ensures nodes == Overwritten(old(nodes), level, at, inNode)
      ensures multiIds == old(multiIds) && strings == old(strings) && tokens == old(tokens)
      ensures scopes == old(scopes) && recompile == old(recompile)
    {
      var node := nodes[level][at];
      nodes := nodes[level := nodes[level][at := node.(tokenId := inNode.tokenId, value := inNode.value)]];
    }

    /**
     * The tail of the Multi branch: the class that owns the run `c` gets
     * `child` as a new last child, in place when its run ends the level and
     * otherwise after a copy of its run to the end of the level.
     */
    method AddChildNode(c: Cursor, child: LiveNode)
      requires CursorOk(nodes, c) && c.parent.Some?
      modifies this
      ensures nodes == AddChild(old(nodes), c, child)
      ensures multiIds == old(multiIds) && strings == old(strings) && tokens == old(tokens)
      ensures scopes == old(scopes) && recompile == old(recompile)
    {
      var level := c.level;
      var lastClass := c.parent.value;
      var nodesLen := |nodes[level]|;
      var p := nodes[level - 1][lastClass];
      var v := p.value;
      if nodesLen == c.start + c.count {
        nodes := nodes[level - 1 := nodes[level - 1][lastClass := p.(value := Class(v.className, v.nodeStart, v.nodeCount + 1))]];
      } else {
        var ns := v.nodeStart;
        nodes := nodes[level - 1 := nodes[level - 1][lastClass := p.(value := Class(v.className, nodesLen, v.nodeCount + 1))]];
        ghost var moved := nodes;
        ghost var row := nodes[level];
        assert ns == c.start && ns + c.count <= |row|;
        assert row + row[ns .. ns] == row;
        for i := 0 to c.count
          invariant nodes == moved[level := row + row[ns .. ns + i]]
          invariant multiIds == old(multiIds) && strings == old(strings) && tokens == old(tokens)
          invariant scopes == old(scopes) && recompile == old(recompile)
        {
          var node := nodes[level][i + ns];
          assert nodes[level][i + ns] == row[ns + i];
          assert row + row[ns .. ns + i + 1] == (row + row[ns .. ns + i]) + [node];
          nodes := nodes[level := nodes[level] + [node]];
        }
      }
      nodes := nodes[level := nodes[level] + [child]];
    }

    /** The Single branch of `write_or_add_node`. */
    method WriteSingleNode(level: nat, nodeStart: nat, inNode: LiveNode) returns (r: Result<Option<nat>, LiveError>)
      requires level < |nodes|
      modifies this
      ensures Written(nodes, r) == WriteSingle(old(nodes), level, nodeStart, inNode)
      ensures multiIds == old(multiIds) && strings == old(strings) && tokens == old(tokens)
      ensures scopes == old(scopes) && recompile == old(recompile)
    {
      ghost var row := nodes[level];
      ghost var from := if nodeStart <= |row| then nodeStart else |row|;
      var i := nodeStart;
      while i < |nodes[level]|
        invariant nodes == old(nodes)
        invariant nodeStart <= i && (nodeStart <= |row| ==> i <= |row|)
        invariant forall k | nodeStart <= k < i && k < |row| :: row[k].id != inNode.id
      {
        if nodes[level][i].id == inNode.id {
          assert FindInRun(row, from, |row| - from, inNode.id) == Some(i);
          nodes := nodes[level := nodes[level][i := inNode]];
          return Ok(None);
        }
        i := i + 1;
      }
      assert FindInRun(row, from, |row| - from, inNode.id) == None;
      var index := |nodes[level]|;
      nodes := nodes[level := nodes[level] + [inNode]];
      return Ok(Some(index));
    }

    /** `create_multi_id`: appends the segments to the pool and returns the id that spans them. */
    method CreateMultiId(ids: seq<Id>) returns (id: Id)
      modifies this
      ensures multiIds == old(multiIds) + ids
      ensures id == MultiId(|old(multiIds)|, |ids|)
      ensures nodes == old(nodes) && strings == old(strings) && tokens == old(tokens)
      ensures scopes == old(scopes) && recompile == old(recompile)
    {
      var multiIndex := |multiIds|;
      for k := 0 to |ids|
        invariant multiIds == old(multiIds) + ids[..k]
        invariant nodes == old(nodes) && strings == old(strings) && tokens == old(tokens)
        invariant scopes == old(scopes) && recompile == old(recompile)
      {
        multiIds := multiIds + [ids[k]];
      }
      assert ids[..|ids|] == ids;
      id := MultiId(multiIndex, |ids|);
    }

    /**
     * `fetch_crate_module`: a two-segment path names a crate and a module;
     * the crate `crate` stands for the enclosing crate. Any other id panics
     * in the source. `FetchOfCreated` states what it returns.
     */
    function FetchCrateModule(id: Id, outerCrateId: Id): CrateModule
      reads this
      requires ToType(id).Multi? && ToType(id).count == 2 && ToType(id).index + 2 <= |multiIds|
    {
      var index := ToType(id).index;
      var crateId := multiIds[index];
      var crateId := if crateId == CRATE_ID then outerCrateId else crateId;
      CrateModule(crateId, multiIds[index + 1])
    }
  }

  /** The id `create_multi_id` returns names exactly the segments it appended. */
  lemma CreatedIdNamesSegments(pool: seq<Id>, ids: seq<Id>)
    requires |pool| < U32 && |ids| < 0x2000_0000
    ensures ToType(MultiId(|pool|, |ids|)) == Multi(|pool|, |ids|)
    ensures MultiPath(pool + ids, MultiId(|pool|, |ids|)) == ids
  {
    assert (pool + ids)[|pool| .. |pool| + |ids|] == ids;
  }

  /**
   * `create_multi_id([a, b])` then `fetch_crate_module`: the id made for the
   * two segments names module `b` of crate `a`, where `crate` stands for
   * the enclosing crate.
   */
  lemma FetchOfCreated(doc: LiveDocument, pool: seq<Id>, a: Id, b: Id, outerCrateId: Id)
    requires doc.multiIds == pool + [a, b] && |pool| < U32
    ensures ToType(MultiId(|pool|, 2)) == Multi(|pool|, 2)
    ensures doc.FetchCrateModule(MultiId(|pool|, 2), outerCrateId)
              == CrateModule(if a == CRATE_ID then outerCrateId else a, b)
  {
    CreatedIdNamesSegments(pool, [a, b]);
    assert doc.multiIds[|pool|] == a && doc.multiIds[|pool| + 1] == b;
  }

  /** The path `crate::m`, made by `create_multi_id`, names module `m` of the enclosing crate. */
  lemma FetchOfCratePath(doc: LiveDocument, pool: seq<Id>, m: Id, outerCrateId: Id)
    requires doc.multiIds == pool + [IdOf(CRATE), m] && |pool| < U32
    ensures doc.FetchCrateModule(MultiId(|pool|, 2), outerCrateId) == CrateModule(outerCrateId, m)
  {
    CrateIdIsHash();
    FetchOfCreated(doc, pool, IdOf(CRATE), m, outerCrateId);
  }

  /** The literal `CRATE_ID` is the hash of `crate`, one round per byte. */
  lemma CrateIdIsHash()
    ensures IdOf(CRATE) == CRATE_ID
  {
    assert Mix(HASH_SEED, 0x63) == 0x0d0d_5319_5862_23b0;
    assert Mix(0x0d0d_5319_5862_23b0, 0x72) == 0x82eb_467d_fa60_2e71;
    assert Mix(0x82eb_467d_fa60_2e71, 0x61) == 0xd515_8f9a_3b52_6160;
    assert Mix(0xd515_8f9a_3b52_6160, 0x74) == 0x1be2_23c3_36b9_daf5;
    assert Mix(0x1be2_23c3_36b9_daf5, 0x65) == 0xd5f8_4848_348f_f3d2;
    assert HashPrefix(CRATE, 5) == 0xd5f8_4848_348f_f3d2;
  }
}

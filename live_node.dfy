/**
 * The records a live document is made of. `LiveNode`, `LiveValue`,
 * `TokenWithSpan` and `CrateModule` are declared in files that are not part
 * of this model; their shapes here are the ones `livedocument.rs` uses, and
 * payloads nothing here computes on (tokens, floats, vectors) are abstract.
 */
module LiveNodes {
  import opened Ids
  import opened Spans

  /** `TokenId`: where a node came from in the token stream. */
  type TokenId(==)

  /** A lexer token. */
  type Token(==)

  /** An `f64` payload. */
  type F64(==)

  /** `Vec2` and `Vec3` payloads. */
  type Vec2Value(==)
  type Vec3Value(==)

  /**
   * The value of a node. `Call`, `Array`, `Object` and `Class` own a run
   * `nodeStart .. nodeStart + nodeCount` of the next level; `String` a run of
   * the string pool; `Fn` runs of the token and scope pools.
   */
  datatype LiveValue =
    | String(stringStart: nat, stringCount: nat)
    | Bool(b: bool)
    | Int(i: int)
    | Float(f: F64)
    | Color(rgba: bv32)
    | Vec2(v2: Vec2Value)
    | Vec3(v3: Vec3Value)
    | IdValue(idValue: Id)
    | Call(target: Id, nodeStart: nat, nodeCount: nat)
    | Array(nodeStart: nat, nodeCount: nat)
    | Object(nodeStart: nat, nodeCount: nat)
    | Fn(tokenStart: nat, tokenCount: nat, scopeStart: nat, scopeCount: nat)
    | Use(crateModule: Id)
    | Class(className: Id, nodeStart: nat, nodeCount: nat)

  datatype LiveNode = LiveNode(tokenId: TokenId, id: Id, value: LiveValue)

  /** `LiveNodePtr`: a node's level and its index within the level. */
  datatype LiveNodePtr = LiveNodePtr(level: nat, index: nat)

  datatype CrateModule = CrateModule(crateId: Id, moduleId: Id)

  datatype TokenWithSpan = TokenWithSpan(token: Token, span: Span)

  datatype LiveScopeTarget =
    | Local(nodePtr: LiveNodePtr)
    | UseTarget(crateModule: CrateModule, nodePtr: LiveNodePtr)

  datatype LiveScopeItem = LiveScopeItem(id: Id, target: LiveScopeTarget)
}

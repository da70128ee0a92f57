/**
 * The 64-bit tagged key of the live language (render/live_parser/src/id.rs).
 *
 * The top three bits of the word select the kind of key:
 *   0??  Single  (63-bit hash of an identifier's text)
 *   100  Empty
 *   101  NodePtr (file, level, index)
 *   110  Multi   (index and count into a document's path-segment pool)
 *   111  Number  (61-bit literal)
 * A `usize` enters the word through `Words.U64` (`as u64`) and leaves it
 * through `Words.Usize` (`as usize`).
 */
module Ids {
  import opened Wrappers
  import opened Words

  /** `Id(pub u64)`: two ids are equal exactly when their words are. */
  type Id = bv64
  type Byte = bv8
  /** Identifier text as the UTF-8 bytes `str::as_bytes` yields. */
  type Utf8 = seq<Byte>
  /** `LiveFileId(u16)`. */
  type LiveFileId = bv16

  const TOP_BIT: bv64 := 0x8000_0000_0000_0000
  const TAG_MASK: bv64 := 0xE000_0000_0000_0000
  const SINGLE_MASK: bv64 := 0x7fff_ffff_ffff_ffff
  const PAYLOAD_MASK: bv64 := 0x1fff_ffff_ffff_ffff
  const LOW32_MASK: bv64 := 0xffff_ffff
  const EMPTY_TAG: bv64 := 0x8000_0000_0000_0000
  const NODE_PTR_TAG: bv64 := 0xA000_0000_0000_0000
  const MULTI_TAG: bv64 := 0xC000_0000_0000_0000
  const NUMBER_TAG: bv64 := 0xE000_0000_0000_0000

  /** The decoded view `IdType`; `NodePtr` carries the fields of its `LiveNodePtr` inline. */
  datatype IdType =
    | Empty
    | Multi(index: nat, count: nat)
    | NodePtr(fileId: LiveFileId, level: nat, index: nat)
    | Single(value: bv64)
    | Number(value: bv64)

  // ---------------------------------------------------------------------
  // Kind tests
  // ---------------------------------------------------------------------

  /** `Id::is_empty`: tag 100; agrees with `to_type`. */
  predicate IsEmpty(id: Id): (b: bool)
    ensures b <==> ToType(id).Empty?
  {
    id & TAG_MASK == EMPTY_TAG
  }

  /** `Id::is_node_ptr`: tag 101; agrees with `to_type`. */
  predicate IsNodePtr(id: Id): (b: bool)
    ensures b <==> ToType(id).NodePtr?
  {
    id & TAG_MASK == NODE_PTR_TAG
  }

  /** `Id::is_multi`: tag 110; agrees with `to_type`. */
  predicate IsMulti(id: Id): (b: bool)
    ensures b <==> ToType(id).Multi?
  {
    id & TAG_MASK == MULTI_TAG
  }

  /** `Id::is_number`: tag 111; agrees with `to_type`. */
  predicate IsNumber(id: Id): (b: bool)
    ensures b <==> ToType(id).Number?
  {
    id & TAG_MASK == NUMBER_TAG
  }

  /** `Id::is_single`: top bit clear; agrees with `to_type`, which then keeps the whole word. */
  predicate IsSingle(id: Id): (b: bool)
    ensures b <==> ToType(id).Single?
    ensures b ==> ToType(id) == Single(id)
  {
    id & TOP_BIT == 0
  }

  function KindCount(id: Id): nat
  {
    (if IsSingle(id) then 1 else 0) + (if IsEmpty(id) then 1 else 0) + (if IsNodePtr(id) then 1 else 0)
    + (if IsMulti(id) then 1 else 0) + (if IsNumber(id) then 1 else 0)
  }

  /** The tag bits make the five kinds disjoint and exhaustive. */
  lemma ExactlyOneKind(id: Id)
    ensures KindCount(id) == 1
  {
    var _ := IsSingle(id) && IsEmpty(id) && IsNodePtr(id) && IsMulti(id) && IsNumber(id);
  }

  // ---------------------------------------------------------------------
  // Decoding
  // ---------------------------------------------------------------------

  /** `Id::to_type`: branches on the top bit, then on the three tag bits. */
  function ToType(id: Id): (t: IdType)
  {
    if id & TOP_BIT != 0 then
      var tag := id & TAG_MASK;
      if tag == NODE_PTR_TAG then
        NodePtr(((id >> 32) & 0xffff) as bv16, Usize((id >> 48) & 0x1fff), Usize(id & LOW32_MASK))
      else if tag == MULTI_TAG then
        Multi(Usize(id & LOW32_MASK), Usize((id & PAYLOAD_MASK) >> 32))
      else if tag == NUMBER_TAG then
        Number(id & PAYLOAD_MASK)
      else
        Empty
    else
      Single(id & SINGLE_MASK)
  }

  /** `Id::get_multi`; the source panics unless the tag is Multi. */
  function GetMulti(id: Id): (r: (nat, nat))
    requires IsMulti(id)
    ensures ToType(id) == Multi(r.0, r.1)
  {
    (Usize(id & LOW32_MASK), Usize((id & PAYLOAD_MASK) >> 32))
  }

  /** `Id::get_single`; the source panics unless the top bit is clear. */
  function GetSingle(id: Id): (r: bv64)
    requires IsSingle(id)
    ensures ToType(id) == Single(r)
  {
    id
  }

  // ---------------------------------------------------------------------
  // Encoding
  // ---------------------------------------------------------------------

  /**
   * `Id::multi(index, len)`: both are cast to `u64` and the pair is masked
   * into the 61-bit payload; it decodes back when the index fits in 32 bits
   * and the count in 29.
   */
  function MultiId(index: nat, len: nat): (id: Id)
    ensures IsMulti(id)
    ensures index < U32 && len < 0x2000_0000 ==> ToType(id) == Multi(index, len)
  {
    MultiDecodes(index, len);
    ((((U64(len) << 32) | U64(index)) & PAYLOAD_MASK) | MULTI_TAG)
  }

  lemma MultiDecodes(index: nat, len: nat)
    ensures var id := (((U64(len) << 32) | U64(index)) & PAYLOAD_MASK) | MULTI_TAG;
      index < U32 && len < 0x2000_0000 ==> ToType(id) == Multi(index, len)
  {
    if index < U32 && len < 0x2000_0000 {
      U64Below32(index);
      U64Below29(len);
      MultiFields(U64(index), U64(len));
      UsizeU64(index);
      UsizeU64(len);
    }
  }

  lemma MultiFields(index: bv64, len: bv64)
    requires index < 0x1_0000_0000 && len < 0x2000_0000
    ensures var id := (((len << 32) | index) & PAYLOAD_MASK) | MULTI_TAG;
      id & TAG_MASK == MULTI_TAG && id & LOW32_MASK == index && (id & PAYLOAD_MASK) >> 32 == len
  {
  }

  /** `Id::single(val)`: clears the top bit. */
  function SingleId(val: bv64): (id: Id)
    ensures IsSingle(id)
    ensures val & TOP_BIT == 0 ==> id == val
  {
    val & SINGLE_MASK
  }

  /** `Id::number(val)`: keeps the low 61 bits of the literal. */
  function NumberId(val: bv64): (id: Id)
    ensures IsNumber(id)
    ensures ToType(id) == Number(val & PAYLOAD_MASK)
  {
    NUMBER_TAG | (val & PAYLOAD_MASK)
  }

  /** `Id::empty()`. */
  function EmptyId(): (id: Id)
    ensures IsEmpty(id) && ToType(id) == Empty
  {
    EMPTY_TAG
  }

  /**
   * `Id::node_ptr(file_id, ptr)`: the fields are OR-ed in unmasked, so the
   * pointer decodes back exactly when the level fits in 13 bits and the index
   * in 32; a wider level spills into the tag bits.
   */
  function NodePtrId(fileId: LiveFileId, level: nat, index: nat): (id: Id)
    ensures ToType(id) == NodePtr(fileId, level, index) <==> level < 0x2000 && index < U32
  {
    NodePtrDecodes(fileId, level, index);
    NODE_PTR_TAG | U64(index) | ((fileId as bv64) << 32) | (U64(level) << 48)
  }

  lemma NodePtrDecodes(fileId: LiveFileId, level: nat, index: nat)
    ensures var id := NODE_PTR_TAG | U64(index) | ((fileId as bv64) << 32) | (U64(level) << 48);
      ToType(id) == NodePtr(fileId, level, index) <==> level < 0x2000 && index < U32
  {
    if level < 0x2000 && index < U32 {
      U64Below13(level);
      U64Below32(index);
      NodePtrOfWords(fileId, U64(level), U64(index));
      UsizeU64(level);
      UsizeU64(index);
    } else {
      DecodedNodePtrBounds(NODE_PTR_TAG | U64(index) | ((fileId as bv64) << 32) | (U64(level) << 48));
    }
  }

  lemma NodePtrOfWords(fileId: LiveFileId, level: bv64, index: bv64)
    requires level < 0x2000 && index < 0x1_0000_0000
    ensures ToType(NODE_PTR_TAG | index | ((fileId as bv64) << 32) | (level << 48)) == NodePtr(fileId, Usize(level), Usize(index))
  {
    NodePtrFields(fileId, level, index);
  }

  lemma NodePtrFields(fileId: LiveFileId, level: bv64, index: bv64)
    requires level < 0x2000 && index < 0x1_0000_0000
    ensures var id := NODE_PTR_TAG | index | ((fileId as bv64) << 32) | (level << 48);
      id & TOP_BIT != 0 && id & TAG_MASK == NODE_PTR_TAG && ((id >> 32) & 0xffff) as bv16 == fileId
      && (id >> 48) & 0x1fff == level && id & LOW32_MASK == index
  {
  }

  /** A decoded node pointer's level is below 2^13 and its index below 2^32. */
  lemma DecodedNodePtrBounds(id: Id)
    ensures ToType(id).NodePtr? ==> ToType(id).level < 0x2000 && ToType(id).index < U32
  {
    UsizeBelow13((id >> 48) & 0x1fff);
    UsizeBelow32(id & LOW32_MASK);
  }

  /** get_multi undoes multi on the ranges the word has room for. */
  lemma GetMultiOfMulti(index: nat, len: nat)
    requires index < U32 && len < 0x2000_0000
    ensures GetMulti(MultiId(index, len)) == (index, len)
  {
  }

  /** Level 2^13 lands on tag bit 61, which the NodePtr tag already has: it aliases level 0. */
  lemma NodePtrLevelAliases(fileId: LiveFileId, index: nat)
    ensures NodePtrId(fileId, 0x2000, index) == NodePtrId(fileId, 0, index)
  {
    U64Literals();
    LevelBitAliases(fileId, U64(index));
  }

  lemma LevelBitAliases(fileId: LiveFileId, index: bv64)
    ensures NODE_PTR_TAG | index | ((fileId as bv64) << 32) | (0x2000 << 48)
      == NODE_PTR_TAG | index | ((fileId as bv64) << 32) | (0 << 48)
  {
  }

  /** Level 2^14 sets tag bit 62: the word reads as a Number. */
  lemma NodePtrLevelCorruptsTag(fileId: LiveFileId, index: nat)
    ensures IsNumber(NodePtrId(fileId, 0x4000, index))
  {
    U64Literals();
    LevelBitCorrupts(fileId, U64(index));
  }

  lemma LevelBitCorrupts(fileId: LiveFileId, index: bv64)
    ensures (NODE_PTR_TAG | index | ((fileId as bv64) << 32) | (0x4000 << 48)) & TAG_MASK == NUMBER_TAG
  {
  }

  // ---------------------------------------------------------------------
  // Hashing identifier text: `Id::from_str`
  // ---------------------------------------------------------------------

  const HASH_SEED: bv64 := 0xd6e8_feb8_6659_fd9
  const HASH_MUL: bv64 := 0xd6e8_feb8_6659_fd93

  /** `x ^= x >> 32`. */
  function XorShift(x: bv64): bv64 { x ^ (x >> 32) }

  /** One round of the loop in `from_str`: wrapping add of the byte, then xor-shift / wrapping multiply twice. */
  function Mix(x: bv64, b: Byte): bv64
  {
    XorShift(XorShift(XorShift(x + b as bv64) * HASH_MUL) * HASH_MUL)
  }

  /** The hash state after the loop has consumed the first `n` bytes of `s`. */
  function HashPrefix(s: Utf8, n: nat): bv64
    requires n <= |s|
  {
    if n == 0 then HASH_SEED else Mix(HashPrefix(s, n - 1), s[n - 1])
  }

  /** The hash of a whole text. */
  function Hash(s: Utf8): bv64
  {
    HashPrefix(s, |s|)
  }

  /** Only the bytes consumed so far matter: a longer text hashes its prefix the same way. */
  lemma {:induction false} HashPrefixOfPrefix(s: Utf8, t: Utf8, n: nat)
    requires n <= |s| && n <= |t| && s[..n] == t[..n]
    ensures HashPrefix(s, n) == HashPrefix(t, n)
  {
    if n > 0 {
      assert s[..n - 1] == t[..n - 1] && s[n - 1] == t[n - 1] by {
        assert s[..n - 1] == s[..n][..n - 1] && t[..n - 1] == t[..n][..n - 1];
        assert s[n - 1] == s[..n][n - 1] && t[n - 1] == t[..n][n - 1];
      }
      HashPrefixOfPrefix(s, t, n - 1);
    }
  }

  /** Hashing one more byte is one more `Mix` round: the hash is a left fold. */
  lemma HashSnoc(s: Utf8, b: Byte)
    ensures Hash(s + [b]) == Mix(Hash(s), b)
  {
    HashPrefixOfPrefix(s + [b], s, |s|);
  }

  /** The Single id of a text: the hash with the top bit cleared. */
  function IdOf(s: Utf8): (id: Id)
    ensures IsSingle(id) && ToType(id) == Single(id)
  {
    SingleId(Hash(s))
  }

  /** The `while` loop of `Id::from_str`: one `Mix` round per byte, first byte first. */
  method HashBytes(s: Utf8) returns (x: bv64)
    ensures x == Hash(s)
  {
    x := HASH_SEED;
    var i := 0;
    while i < |s|
      invariant 0 <= i <= |s|
      invariant x == HashPrefix(s, i)
    {
      x := Mix(x, s[i]);
      i := i + 1;
    }
  }

  /** `Id::from_str`: the hash loop, then the 63-bit mask. */
  method FromStr(s: Utf8) returns (id: Id)
    ensures id == IdOf(s)
  {
    var x := HashBytes(s);
    id := SingleId(x);
  }

  // ---------------------------------------------------------------------
  // The interning registry: `IdMap` and `Id::check_collision`
  // ---------------------------------------------------------------------

  /**
   * A registry key: the id's bits. The wrapper keeps map lookups after an
   * insertion within what the solver reasons about well.
   */
  datatype Key = Key(bits: Id)

  /** `IdMap.id_to_string`, threaded through calls instead of living in a static. */
  type Registry = map<Key, Utf8>

  /** Every registered id is the hash of the text stored for it. */
  ghost predicate Interned(registry: Registry)
  {
    forall k | k in registry :: k.bits == IdOf(registry[k])
  }

  /**
   * `Id::check_collision(val)`: a Single id seen for the first time registers
   * its text; a different text already stored for it is returned; other kinds
   * never touch the registry. Returns the report and the new registry.
   */
  function CheckCollision(registry: Registry, id: Id, val: Utf8): (r: (Option<Utf8>, Registry))
    ensures r.0.Some? <==> IsSingle(id) && Key(id) in registry && registry[Key(id)] != val
    ensures r.0.Some? ==> r.0.value == registry[Key(id)]
    ensures registry.Keys <= r.1.Keys
    ensures forall k | k in registry :: r.1[k] == registry[k]
    ensures IsSingle(id) ==> Key(id) in r.1
    ensures Key(id) !in registry && IsSingle(id) ==> r.1[Key(id)] == val
    ensures r.1.Keys <= registry.Keys + {Key(id)}
    ensures !IsSingle(id) ==> r.1 == registry
    ensures r.1 != registry ==> IsSingle(id) && Key(id) !in registry && r.1 == registry[Key(id) := val]
  {
    var k := Key(id);
    if IsSingle(id) then
      if k in registry then
        if registry[k] != val then (Some(registry[k]), registry) else (None, registry)
      else
        (None, registry[k := val])
    else
      (None, registry)
  }

  /** Checking the id of a text keeps the registry interned and afterwards maps the id to that text unless a collision was reported. */
  lemma CheckKeepsInterned(registry: Registry, s: Utf8)
    requires Interned(registry)
    ensures var r := CheckCollision(registry, IdOf(s), s);
      Interned(r.1) && (r.0.None? ==> r.1[Key(IdOf(s))] == s)
  {
    var id := IdOf(s);
    var r := CheckCollision(registry, id, s);
    forall k | k in r.1
      ensures k.bits == IdOf(r.1[k])
    {
      if k != Key(id) {
        assert k in registry;
      }
    }
  }

  /** A reported collision is a genuine hash collision: a different text with the same id. */
  lemma CollisionIsHashCollision(registry: Registry, s: Utf8)
    requires Interned(registry)
    requires CheckCollision(registry, IdOf(s), s).0.Some?
    ensures var other := CheckCollision(registry, IdOf(s), s).0.value;
      other != s && IdOf(other) == IdOf(s)
  {
  }

  /** Re-interning the text just checked never reports a collision and leaves the registry alone. */
  lemma RecheckIsQuiet(registry: Registry, id: Id, val: Utf8)
    requires CheckCollision(registry, id, val).0.None?
    ensures var after := CheckCollision(registry, id, val).1;
      CheckCollision(after, id, val) == (None, after)
  {
    var after := CheckCollision(registry, id, val).1;
    if IsSingle(id) && Key(id) !in registry {
      assert after == registry[Key(id) := val];
    }
  }

  // ---------------------------------------------------------------------
  // Rendering a path: `IdFmt`
  // ---------------------------------------------------------------------

  /** The separator `IdFmt` writes between segments: "." for `dot`, "::" for `col`. */
  function Separator(isDot: bool): string
  {
    if isDot then "." else "::"
  }

  /** Segments joined by a separator, read from the front. */
  function Joined(parts: seq<string>, sep: string): string
    decreases |parts|
  {
    if |parts| == 0 then ""
    else if |parts| == 1 then parts[0]
    else parts[0] + sep + Joined(parts[1..], sep)
  }

  /** Appending one segment to a non-empty join adds the separator and the segment. */
  lemma {:induction false} JoinedSnoc(parts: seq<string>, sep: string, last: string)
    requires |parts| >= 1
    ensures Joined(parts + [last], sep) == Joined(parts, sep) + sep + last
    decreases |parts|
  {
    if |parts| == 1 {
      assert (parts + [last])[1..] == [last];
    } else {
      assert (parts + [last])[1..] == parts[1..] + [last];
      JoinedSnoc(parts[1..], sep, last);
    }
  }

  /** The rendered length: every segment plus one separator between each neighbouring pair. */
  function TotalLength(parts: seq<string>): nat
  {
    if parts == [] then 0 else |parts[0]| + TotalLength(parts[1..])
  }

  lemma {:induction false} JoinedLength(parts: seq<string>, sep: string)
    requires |parts| >= 1
    ensures |Joined(parts, sep)| == TotalLength(parts) + (|parts| - 1) * |sep|
    decreases |parts|
  {
    if |parts| > 1 {
      JoinedLength(parts[1..], sep);
    }
  }

  /** The rendered segments of the run `multiIds[index..index + count]`. */
  function Segments(multiIds: seq<Id>, index: nat, count: nat, show: Id -> string): (parts: seq<string>)
    requires index + count <= |multiIds|
    ensures |parts| == count
    ensures forall k | 0 <= k < count :: parts[k] == show(multiIds[index + k])
  {
    seq(count, k requires 0 <= k < count => show(multiIds[index + k]))
  }

  /** The loop of `IdFmt::fmt` over a Multi id's run: segment, then separator unless it is the last. */
  method FormatSegments(multiIds: seq<Id>, index: nat, count: nat, isDot: bool, show: Id -> string) returns (out: string)
    requires index + count <= |multiIds|
    ensures out == Joined(Segments(multiIds, index, count, show), Separator(isDot))
  {
    ghost var parts := Segments(multiIds, index, count, show);
    var sep := Separator(isDot);
    out := "";
    var i := 0;
    while i < count
      invariant 0 <= i <= count
      invariant i == 0 ==> out == ""
      invariant 0 < i < count ==> out == Joined(parts[..i], sep) + sep
      invariant i == count && count > 0 ==> out == Joined(parts, sep)
    {
      if i > 0 {
        JoinedSnoc(parts[..i], sep, parts[i]);
        assert parts[..i] + [parts[i]] == parts[..i + 1];
      } else {
        assert parts[..1] == [parts[0]];
      }
      out := out + show(multiIds[index + i]);
      if i < count - 1 {
        out := out + sep;
      }
      i := i + 1;
      if i == count {
        assert parts[..i] == parts;
      }
    }
  }

  /**
   * `IdFmt::fmt`: a Multi id is written segment by segment, each segment
   * rendered by `show` (the `Display` of a single `Id`, which consults the
   * registry), with the separator between neighbours; any other id is shown
   * as itself.
   */
  method FormatId(multiIds: seq<Id>, isDot: bool, id: Id, show: Id -> string) returns (out: string)
    requires ToType(id).Multi? ==> ToType(id).index + ToType(id).count <= |multiIds|
    ensures ToType(id).Multi? ==>
      out == Joined(Segments(multiIds, ToType(id).index, ToType(id).count, show), Separator(isDot))
    ensures !ToType(id).Multi? ==> out == show(id)
  {
    var t := ToType(id);
    if t.Multi? {
      out := FormatSegments(multiIds, t.index, t.count, isDot, show);
    } else {
      out := show(id);
    }
  }
}

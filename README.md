# Live documents, ids, spans and line buffers — a Dafny model

This project models five pieces of the makepad repository and proves properties of them:

- the node store of the live language, `LiveDocument`. Each tree level is one flat row of
  `LiveNode`s. A `Class` value owns the run `nodeStart .. nodeStart + nodeCount` of the next
  level. The store can:
  - resolve a dotted path (`scan_for_multi`, `scan_for_multi_for_expand`);
  - upsert a node (`write_or_add_node`), appending to or relocating a class's run of children;
  - manage its pools (`create_multi_id`, `restart_from`, `get_level_len`, `push_node`,
    `fetch_crate_module`).
- `Id`, the 64-bit tagged key. Its three top bits select Single, Empty, NodePtr, Multi or
  Number. The module covers the bit-level constructors and decoders, the `from_str` hash, the
  interning check `check_collision`, and the segment joining of `IdFmt`.
- `Span`, a source span packed into a `u64` as a 16-bit file id, a 24-bit start and a 24-bit
  end.
- the mace editor's text buffer: a list of lines with `len`, `is_empty`, `copy`, `take`,
  `skip`, `insert`, `delete`, `+=` and `apply_delta`.
- the code editor's text buffer: the same list of lines, except that a multi-line `insert`
  splices the last inserted line at the target line's length.

Layout:

| file | module | contents |
|---|---|---|
| `wrappers.dfy` | `Wrappers` | `Option` and `Result` |
| `words.dfy` | `Words` | `as u64` and `as usize` between `nat` and `bv64`, byte by byte |
| `id.dfy` | `Ids` | the id codec, the hash, the registry, `IdFmt` |
| `span.dfy` | `Spans` | the span codec |
| `live_node.dfy` | `LiveNodes` | `LiveValue`, `LiveNode`, `LiveNodePtr` and the pool element types |
| `live_store.dfy` | `LiveStore` | what the lookups and the write compute, stated on the levels as values |
| `live_document.dfy` | `LiveDocuments` | the `LiveDocument` class, whose methods are proved against `LiveStore` |
| `text_lines.dfy` | `TextLines` | lines, sizes and positions; the cuts `Taken`, `Skipped` and `Concat`; the edits `Inserted`, `Deleted` and `Removed`, with their round trips |
| `delta.dfy` | `Deltas` | running a delta, for either buffer's insert |
| `mace_text.dfy` | `MaceText` | the mace `Text` class |
| `editor_text.dfy` | `EditorText` | the code editor `Text` class |

Each state-changing method is proved to produce the state a specification function gives. The
properties the source promises are then lemmas about those functions:

- the two scans agree;
- an upsert overwrites exactly one node, or appends a child while keeping the class's run
  intact;
- `take` followed by `+=` restores the text;
- `insert` followed by `delete` restores the text, and so does the reverse order;
- the id and span codecs round-trip within their field widths.

## Model

| member | source | states |
|---|---|---|
| Words.U64 | render/live_parser/src/id.rs:100-102 | `as u64` on a `usize` keeps the value modulo 2^64: reading the word back gives `n % 2^64` |
| Words.UsizeU64 | render/live_parser/src/id.rs:116-123 | a value below 2^64 survives `as u64` followed by `as usize` |
| Words.UsizeBelow32 | render/live_parser/src/id.rs:84-89 | a field masked to 32 bits reads back as a `usize` below 2^32 |
| Ids.IsEmpty | render/live_parser/src/id.rs:125-127 | tag 100 holds exactly when `to_type` is `Empty` |
| Ids.IsNodePtr | render/live_parser/src/id.rs:129-131 | tag 101 holds exactly when `to_type` is `NodePtr` |
| Ids.IsMulti | render/live_parser/src/id.rs:133-135 | tag 110 holds exactly when `to_type` is `Multi` |
| Ids.IsNumber | render/live_parser/src/id.rs:137-139 | tag 111 holds exactly when `to_type` is `Number` |
| Ids.IsSingle | render/live_parser/src/id.rs:141-143 | a clear top bit holds exactly when `to_type` is `Single`, which then carries the whole word |
| Ids.ExactlyOneKind | render/live_parser/src/id.rs:34-39 | for every word exactly one of the five kind tests holds |
| Ids.GetMulti | render/live_parser/src/id.rs:145-153 | defined only on Multi ids (the source panics otherwise); returns the index and count `to_type` decodes |
| Ids.GetSingle | render/live_parser/src/id.rs:155-160 | defined only on Single ids (the source panics otherwise); returns the word, which `to_type` decodes as `Single` |
| Ids.MultiId | render/live_parser/src/id.rs:100-102 | `multi` always gives a Multi id; with an index below 2^32 and a count below 2^29, `to_type` gives back that index and count |
| Ids.GetMultiOfMulti | render/live_parser/src/id.rs:100-102 | `get_multi(multi(i, c)) == (i, c)` whenever i < 2^32 and c < 2^29 |
| Ids.SingleId | render/live_parser/src/id.rs:104-106 | `single` always gives a Single id, and a word whose top bit is clear comes back unchanged |
| Ids.NumberId | render/live_parser/src/id.rs:108-110 | `number(v)` is a Number id that decodes to `v & 0x1fff_ffff_ffff_ffff` |
| Ids.EmptyId | render/live_parser/src/id.rs:112-114 | `empty()` satisfies `is_empty`, and `to_type` gives `Empty` |
| Ids.NodePtrId | render/live_parser/src/id.rs:116-123 | `node_ptr` decodes back to the same file, level and index exactly when level < 2^13 and index < 2^32 |
| Ids.DecodedNodePtrBounds | render/live_parser/src/id.rs:80-86 | a decoded node pointer always has level < 2^13 and index < 2^32 |
| Ids.NodePtrLevelAliases | render/live_parser/src/id.rs:116-123 | level 2^13 spills into a tag bit the NodePtr tag already has, so the id equals the one for level 0 |
| Ids.NodePtrLevelCorruptsTag | render/live_parser/src/id.rs:116-123 | level 2^14 sets tag bit 62, so the id reads as a Number |
| Ids.HashBytes | render/live_parser/src/id.rs:63-73 | the `while` loop leaves the state after one mixing round per byte, first byte first (`Hash`) |
| Ids.HashSnoc | render/live_parser/src/id.rs:65-73 | hashing one more byte is one more mixing round: the hash is a left fold |
| Ids.HashPrefixOfPrefix | render/live_parser/src/id.rs:65-73 | the state after n rounds depends only on the first n bytes |
| Ids.IdOf | render/live_parser/src/id.rs:74 | the id of a text always has its top bit clear, so `is_single` holds and `to_type` is `Single` |
| Ids.FromStr | render/live_parser/src/id.rs:60-75 | `from_str` returns exactly the masked hash of the text's bytes |
| Ids.CheckCollision | render/live_parser/src/id.rs:169-183 | reports a collision exactly for a Single id already stored with a different text, and returns that text. Only a Single id seen for the first time is added, with this text. Every existing entry is kept, and nothing else is added. Any id that is not Single leaves the registry exactly as it was |
| Ids.CheckKeepsInterned | render/live_parser/src/id.rs:169-183 | if every stored id is the hash of its text, that still holds after checking a text's id; without a collision, the id then maps to that text |
| Ids.CollisionIsHashCollision | render/live_parser/src/id.rs:169-175 | a reported collision is a different text with the same id |
| Ids.RecheckIsQuiet | render/live_parser/src/id.rs:169-183 | checking the same id and text again reports nothing and leaves the registry as it was |
| Ids.JoinedSnoc | render/live_parser/src/id.rs:289-299 | appending a segment to a non-empty join adds one separator and the segment |
| Ids.JoinedLength | render/live_parser/src/id.rs:289-299 | the rendered length is every segment plus one separator between neighbours |
| Ids.Segments | render/live_parser/src/id.rs:289-290 | segment k is the rendering of `multi_ids[index + k]`, for each of the `count` segments |
| Ids.FormatSegments | render/live_parser/src/id.rs:289-300 | the loop writes the segments joined by "." (dot) or "::" (col) |
| Ids.FormatId | render/live_parser/src/id.rs:285-307 | a Multi id renders as its joined segments; any other id renders as itself |
| Spans.FileIndex | render/live_parser/src/id.rs:12 | a file id is a number below 2^16 |
| Spans.NewSpan | render/live_parser/src/span.rs:10-17 | the top 16 bits of the packed word are the file index |
| Spans.PackBounds | render/live_parser/src/span.rs:13-15 | the three shifted fields fit in 64 bits, and shifting back gives each field |
| Spans.Start | render/live_parser/src/span.rs:18-20 | a start is below 2^24 |
| Spans.End | render/live_parser/src/span.rs:21-23 | an end is below 2^24 |
| Spans.FileId | render/live_parser/src/span.rs:28-30 | a decoded file id is below 2^16 |
| Spans.Len | render/live_parser/src/span.rs:24-26 | defined when end >= start; start plus the length is the end |
| Spans.NewTruncates | render/live_parser/src/span.rs:13-15 | start and end are reduced modulo 2^24, not rejected; the file id comes back whole |
| Spans.NewRoundTrip | render/live_parser/src/span.rs:10-23 | in-range start and end come back unchanged, and so does the file id |
| Spans.StartWrapsExample | render/live_parser/src/span.rs:14 | a start of 2^24 + 5 reads back as 5 |
| Spans.FieldsIndependent | render/live_parser/src/span.rs:13-15 | changing one input never changes another field's decoded value |
| Spans.LenOfNew | render/live_parser/src/span.rs:24-26 | the length of a span built from in-range offsets is end - start |
| LiveStore.Root | render/live_parser/src/livedocument.rs:87-89 | the scan starts on all of level 0, with no class entered |
| LiveStore.FindInRun | render/live_parser/src/livedocument.rs:93-95 | the first index of the run whose node has the id; None exactly when no node of the run has it |
| LiveStore.Enter | render/live_parser/src/livedocument.rs:103-109 | entering a found class gives a valid run one level down, owned by that class |
| LiveStore.Descend | render/live_parser/src/livedocument.rs:90-124 | following k class segments gives a valid run at level + k |
| LiveStore.Resolve | render/live_parser/src/livedocument.rs:86-126 | a result is at level + \|path\| - 1, in range, and its node's id is the last segment |
| LiveStore.ExpandPath | render/live_parser/src/livedocument.rs:133-134 | the expand scan follows segments 1 .. count - 1 of the multi id |
| LiveStore.ExpandAgreesWithResolve | render/live_parser/src/livedocument.rs:129-169 | the expand scan succeeds exactly where `scan_for_multi` does, with the same node. It reports "not an object path" exactly when an earlier segment is found but is not a class |
| LiveStore.StuckStaysStuck | render/live_parser/src/livedocument.rs:105-123 | once a walk stops at a missing or non-class segment, later segments do not change the outcome |
| LiveStore.DescendSnoc | render/live_parser/src/livedocument.rs:90-124 | following one more segment is one more `Enter` |
| LiveStore.ResolveStep | render/live_parser/src/livedocument.rs:93-123 | one iteration of the scan decides the result, or enters the found class's run |
| LiveStore.ExpandStep | render/live_parser/src/livedocument.rs:136-166 | one iteration of the expand scan decides the result or error, or enters the found class's run |
| LiveStore.Overwritten | render/live_parser/src/livedocument.rs:193-197 | only the found node changes: it takes the new token and value and keeps its id. No level changes length |
| LiveStore.AddChildEffects | render/live_parser/src/livedocument.rs:224-258 | the class now owns a run one longer: its old children in order, then the new node at the level's end. The run stays in place when it ended the level and is otherwise copied to the end. Only that class's run fields change: it keeps its id, token and class name, and nothing else changes |
| LiveStore.WriteMulti | render/live_parser/src/livedocument.rs:181-265 | a failed Multi write leaves the levels unchanged; success is `Ok(None)` |
| LiveStore.WriteSingle | render/live_parser/src/livedocument.rs:266-277 | if a node at index >= node_start has the id, the first one is replaced whole and the result is `Ok(None)`. Otherwise the node is appended and its index, the old length, is returned. Other levels are unchanged |
| LiveStore.MultiPath | render/live_parser/src/livedocument.rs:186-187 | a Multi id's path has `count` segments |
| LiveStore.MultiPathIsRun | render/live_parser/src/livedocument.rs:186-187 | the path is the run `multi_ids[index .. index + count]` |
| LiveStore.WriteOrAdd | render/live_parser/src/livedocument.rs:171-291 | an error leaves the levels unchanged. `UnexpectedIdType` is returned exactly for NodePtr and Number ids. An Empty id always appends and returns the old length. An index is returned only by an append, and it is where the node now is |
| LiveStore.WriteOrAddKeepsFit | render/live_parser/src/livedocument.rs:171-291 | every write keeps each class's run inside the level below, when the written value's own run fits where it lands, and keeps the number of levels |
| LiveStore.WriteMultiKeepsFit | render/live_parser/src/livedocument.rs:186-264 | a Multi write, overwrite or added child, keeps each class's run inside the level below when the written value's run fits |
| LiveStore.OverwrittenKeepsFit | render/live_parser/src/livedocument.rs:193-197 | overwriting a node with a value whose run fits keeps each class's run inside the level below |
| LiveStore.AddChildKeepsFit | render/live_parser/src/livedocument.rs:224-258 | adding a child keeps each class's run inside the level below, including the relocated run |
| LiveStore.WriteMultiLast | render/live_parser/src/livedocument.rs:186-259 | once the walk has followed every segment but the last, the Multi write is decided by the last segment alone: overwrite if found, "not an object path" at the root, or add a child |
| LiveStore.WriteAddsChild | render/live_parser/src/livedocument.rs:217-258 | a path that leads to a class but whose last segment is missing makes the write add that segment as a child of the class |
| LiveStore.AddChildReaches | render/live_parser/src/livedocument.rs:217-258 | after adding the child, the levels stay well formed and the whole path resolves to the new child |
| LiveStore.WriteAddsResolvable | render/live_parser/src/livedocument.rs:217-258 | after a write that adds a child, the write succeeds, the levels stay well formed, and `scan_for_multi` of the written path finds the new node, with the written token, id and value |
| LiveStore.WriteFoundStaysResolvable | render/live_parser/src/livedocument.rs:186-197 | after a write that overwrites, the path still resolves to the same place, which now holds the written token and value under the old id |
| LiveStore.ResolveAgrees | render/live_parser/src/livedocument.rs:86-126 | after any change that keeps the old nodes (as adding a child does), every path that resolved still resolves at the same level, to a node with the same id, token and value, or, for the class that took the child, the same run one longer |
| LiveStore.AddChildKeepsResolvable | render/live_parser/src/livedocument.rs:224-258 | adding a child keeps every path that resolved resolvable, to a node that reads as before |
| LiveStore.WriteAddKeepsResolvable | render/live_parser/src/livedocument.rs:217-258 | a write that adds a child keeps every other path that resolved resolvable, to a node that reads as before |
| LiveStore.WriteStep | render/live_parser/src/livedocument.rs:186-259 | one iteration of the Multi loop overwrites, fails, adds a child, or enters the found class's run |
| LiveStore.WriteFoundOverwrites | render/live_parser/src/livedocument.rs:186-197 | when every segment is found, the write overwrites the final node's token and value and nothing else |
| LiveStore.WriteMultiErrors | render/live_parser/src/livedocument.rs:207-264 | the write fails with "not an object path" exactly when an earlier segment is missing or not a class, or when a one-segment path is not found. It fails with the second unexpected problem exactly for an empty path |
| LiveDocuments.LiveDocument.New | render/live_parser/src/livedocument.rs:49-58 | one empty level, empty pools, marked for recompiling |
| LiveDocuments.LiveDocument.RestartFrom | render/live_parser/src/livedocument.rs:60-68 | every level is emptied and the number of levels is kept. `multi_ids`, `strings` and `tokens` are copied from the other document, and `scopes` is emptied |
| LiveDocuments.LiveDocument.GetLevelLen | render/live_parser/src/livedocument.rs:74-80 | empty levels are added until `level` exists, existing levels are untouched, and the level's length is returned |
| LiveDocuments.LiveDocument.PushNode | render/live_parser/src/livedocument.rs:82-84 | the node is appended to that level and nothing else changes |
| LiveDocuments.LiveDocument.ScanForMulti | render/live_parser/src/livedocument.rs:86-126 | the nested loops compute `Resolve` from the root |
| LiveDocuments.LiveDocument.ScanForMultiForExpand | render/live_parser/src/livedocument.rs:129-169 | the nested loops compute `ExpandResolve` over segments 1 .. count - 1 |
| LiveDocuments.LiveDocument.WriteOrAddNode | render/live_parser/src/livedocument.rs:171-291 | the new levels and the result are `WriteOrAdd` of the old levels; the document stays valid with as many levels as before, every class run still fits when the written value's run fits, and the pools are unchanged |
| LiveDocuments.LiveDocument.WriteMultiNode | render/live_parser/src/livedocument.rs:181-265 | the Multi loop computes `WriteMulti` over the id's run of the other document's pool |
| LiveDocuments.LiveDocument.WalkToLast | render/live_parser/src/livedocument.rs:186-216 | the loop over every segment but the last reaches the cursor `Descend` gives, or fails with "not an object path" exactly when `Descend` gets stuck |
| LiveDocuments.LiveDocument.WriteLast | render/live_parser/src/livedocument.rs:189-258 | the last segment's iteration overwrites, fails or adds a child as `LastWritten` says; the pools are unchanged |
| LiveDocuments.LiveDocument.OverwriteNode | render/live_parser/src/livedocument.rs:194-197 | the found node takes the new token and value in place, giving `Overwritten` of the old levels |
| LiveDocuments.LiveDocument.FindChild | render/live_parser/src/livedocument.rs:189-191 | the inner loop finds what `FindInRun` specifies |
| LiveDocuments.LiveDocument.AddChildNode | render/live_parser/src/livedocument.rs:224-258 | the append-or-relocate branch produces `AddChild` of the old levels |
| LiveDocuments.LiveDocument.WriteSingleNode | render/live_parser/src/livedocument.rs:266-277 | the Single branch computes `WriteSingle` |
| LiveDocuments.LiveDocument.CreateMultiId | render/live_parser/src/livedocument.rs:293-299 | `ids` is appended to `multi_ids` and `multi(old length, \|ids\|)` is returned; nothing else changes |
| LiveDocuments.CreatedIdNamesSegments | render/live_parser/src/livedocument.rs:293-299 | the returned id decodes to the appended run and names exactly `ids` |
| LiveDocuments.FetchOfCreated | render/live_parser/src/livedocument.rs:293-316 | the id `create_multi_id` returns for two segments decodes as that run, and `fetch_crate_module` of it gives back the module named by the second segment, in the crate named by the first (`crate` meaning the enclosing crate) |
| LiveDocuments.FetchOfCratePath | render/live_parser/src/livedocument.rs:301-316 | the created path `crate::m` names module `m` of the enclosing crate |
| LiveDocuments.CrateIdIsHash | render/live_parser/src/livedocument.rs:305 | the constant used for `id!(crate)` is the id of the text `crate` |
| TextLines.Taken | mace/src/text.rs:74-84 | the first n of a text is a well-formed text |
| TextLines.Skipped | mace/src/text.rs:86-89 | the rest after n has n.line fewer lines |
| TextLines.Concat | mace/src/text.rs:148-156 | joining two texts merges the seam lines, giving one line fewer than the total |
| TextLines.ZeroIffEmpty | mace/src/text.rs:26-35 | the length is zero exactly for the single empty line |
| TextLines.LenOfTaken | mace/src/text.rs:74-84 | the first n of a text has length n |
| TextLines.TakeSkipConcat | mace/src/text.rs:74-89 | `take(n)` followed by `+=` of the rest gives back the original |
| TextLines.TakeAll | mace/src/text.rs:30-35 | taking the whole length takes everything and leaves one empty line |
| TextLines.CutConcat | mace/src/text.rs:148-156 | cutting `a += b` at a's length gives back a and b |
| TextLines.LenOfConcat | mace/src/text.rs:148-156 | the length of `a += b` is the sum of the lengths |
| TextLines.ConcatAssoc | mace/src/text.rs:148-156 | `+=` is associative |
| TextLines.Inserted | mace/src/text.rs:91-109 | inserting a k+1-line text adds k lines |
| TextLines.CanDeleteFits | mace/src/text.rs:111-130 | a deletable count fits in the text after the position |
| TextLines.Deleted | mace/src/text.rs:111-130 | deleting count removes count.line lines |
| TextLines.Removed | mace/src/text.rs:41-72 | the stretch a delete removes has length count |
| TextLines.InsertDeleteRoundTrip | mace/src/text.rs:91-130 | `insert(p, t)` followed by `delete(p, t.len())` restores the text |
| TextLines.FitsBack | mace/src/text.rs:111-130 | a count that fits after the position can be deleted |
| TextLines.DeleteInsertRoundTrip | mace/src/text.rs:91-130 | deleting a stretch and inserting it back at the same position restores the text |
| TextLines.InsertOneLine | mace/src/text.rs:92-96 | a one-line insert makes the line prefix ++ text ++ suffix |
| TextLines.InsertManyLines | mace/src/text.rs:97-108 | a multi-line insert puts the prefix before the first inserted line and the suffix after the last |
| TextLines.DeleteOneLine | mace/src/text.rs:112-116 | within one line, count.column characters go at the position |
| TextLines.DeleteManyLines | mace/src/text.rs:117-129 | the prefix is joined to line position.line + count.line from count.column on, replacing the lines between |
| TextLines.CanCopyDelete | mace/src/text.rs:41-72 | a copyable range is a deletable stretch from its start |
| TextLines.SplicedAtLineLength | codeeditor/src/core/text.rs:48-66 | the code editor's insert gives a well-formed text, adding k lines for a k+1-line text |
| TextLines.SplicedOneLine | codeeditor/src/core/text.rs:49-53 | a one-line insert is the same as mace's |
| TextLines.SplicedManyLinesIff | codeeditor/src/core/text.rs:54-65 | a multi-line insert agrees with mace's exactly when the last inserted line is as long as the target line |
| TextLines.SplicedDropsCharacters | codeeditor/src/core/text.rs:59-62 | inserting `["", "xyz"]` at column 1 of `"ab"` gives `["a", "xyb"]`, where extending gives `["a", "xyzb"]` |
| TextLines.SplicedRejectsLineBreak | codeeditor/src/core/text.rs:59-62 | inserting a bare line break into a non-empty line hits the panicking splice |
| Deltas.InsertedBy | codeeditor/src/core/text.rs:96 | either buffer's insert gives a well-formed text |
| Deltas.Step | mace/src/text.rs:134-143 | one operation keeps the text well-formed |
| Deltas.Run | mace/src/text.rs:132-145 | running a delta keeps the text well-formed |
| Deltas.RunAppend | mace/src/text.rs:132-145 | running two deltas one after the other is running their concatenation |
| Deltas.RetainsKeepText | codeeditor/src/core/text.rs:93 | a delta of retains only moves the cursor and leaves the text alone |
| Deltas.InsertDeltaUndone | mace/src/text.rs:137-142 | with mace's insert, an Insert delta is undone by a Delete of the inserted length at the same cursor |
| Deltas.DeleteKeepsCursor | codeeditor/src/core/text.rs:99 | a Delete removes at the cursor and leaves the cursor where it was |
| MaceText.Text.Default | mace/src/text.rs:158-162 | the default text is one empty line |
| MaceText.Text.FromLines | mace/src/text.rs:22-24 | the text is the given lines |
| MaceText.Text.Len | mace/src/text.rs:30-35 | the length fits the text; taking it takes everything and leaves one empty line |
| MaceText.Text.IsEmpty | mace/src/text.rs:26-28 | empty exactly for the single empty line |
| MaceText.Text.Copy | mace/src/text.rs:41-72 | the copy is the stretch a delete of the range's size at its start would remove, and has the range's size |
| MaceText.Text.Take | mace/src/text.rs:74-84 | returns the first n and keeps the rest; the result has length n, and `+=` of the two gives back the original |
| MaceText.Text.Skip | mace/src/text.rs:86-89 | leaves the same rest as `take` |
| MaceText.Text.Insert | mace/src/text.rs:91-109 | the new lines are `Inserted`, which a delete of the inserted length undoes |
| MaceText.Text.Delete | mace/src/text.rs:111-130 | the new lines are `Deleted` |
| MaceText.Text.AddAssign | mace/src/text.rs:148-156 | the new lines are the concatenation |
| MaceText.Text.ApplyDelta | mace/src/text.rs:132-145 | the loop produces `Run` from the origin with mace's insert |
| EditorText.Text.Default | codeeditor/src/core/text.rs:115-121 | the default text is one empty line |
| EditorText.Text.FromLines | codeeditor/src/core/text.rs:123-127 | the text is the given lines |
| EditorText.Text.Len | codeeditor/src/core/text.rs:20-25 | the length fits the text; taking it takes everything and leaves one empty line |
| EditorText.Text.IsEmpty | codeeditor/src/core/text.rs:16-18 | empty exactly for the single empty line |
| EditorText.Text.Take | codeeditor/src/core/text.rs:31-41 | returns the first n and keeps the rest; `+=` of the two gives back the original |
| EditorText.Text.Skip | codeeditor/src/core/text.rs:43-46 | leaves the same rest as `take` |
| EditorText.Text.Insert | codeeditor/src/core/text.rs:48-66 | the new lines are the splice at the line's length, and for a one-line text the same as mace's insert |
| EditorText.Text.Delete | codeeditor/src/core/text.rs:68-87 | the new lines are `Deleted` |
| EditorText.Text.AddAssign | codeeditor/src/core/text.rs:105-113 | the new lines are the concatenation |
| EditorText.Text.ApplyDelta | codeeditor/src/core/text.rs:89-102 | the loop produces `Run` from the origin with the splicing insert |

## Left out

- The `Display` and `Debug` implementations of `LiveDocument`, `LiveScopeTarget`, `Span` and `Id`
  (including `LowerHex` and `Id::as_string`) are not modelled. They produce text for people,
  and the document printer renders floats and vectors.
- `IdFmt` renders each segment through the `Display` of `Id`. That rendering is the parameter
  `show`.
- `LiveError` is reduced to which error it is. Its span (`token_id_to_span`) and its message
  text are not modelled. The expand scan's `Err` strings become `ExpandError`.
- The "Unexpected problem 1" branch of `write_or_add_node` is not modelled. The walk only ever
  records a class as the last class entered, so that branch cannot be reached.
- The static `IdMap` behind a `Once` becomes an explicit registry, passed in and returned. It is
  keyed by the id's bits in a `Key` wrapper, and texts are their UTF-8 bytes.
- `IdMap::add`, `IdMap::contains` and `panic_collision` are not modelled. They are thin
  wrappers around `from_str` and `check_collision`.
- The hash's collision resistance is not claimed. Only its definition, and the runtime check
  for collisions, are modelled.
- `Position += Size` lives in a file that is not part of this model. It is the uninterpreted
  parameter `advance` of `apply_delta`.
- `LiveValue::Class` keeps `node_start` and `node_count` as natural numbers. The `u32` fields
  and the truncating `nodes_len as u32` in the relocation branch are not modelled.
- `as_lines`, `Text::new` (the same as `default`) and `token_id_to_span` are accessors and are
  not modelled separately.
- The pretty-printer of documents is not modelled.
- LiveDocuments.LiveDocument.ScanForMulti requires every class run of the document to fit its
  next level (`ClassRunsFit`). The source indexes without a check and would panic only when the
  walk reaches a run that does not fit.
- LiveDocuments.LiveDocument.ScanForMultiForExpand requires `ClassRunsFit`, for the same
  reason.
- LiveDocuments.LiveDocument.WriteOrAddNode requires `ClassRunsFit` and an id run inside the
  other document's pool, for the same reason. A class value copied in from another document can
  break `ClassRunsFit`, and then the source may panic or read unrelated nodes.
- LiveStore.WriteOk requires, for a Multi id, that the starting run lies inside its level. The
  source would panic on the first out-of-range index. The model does not include that panic.
- LiveDocuments.LiveDocument.ScanForMultiForExpand also requires the starting run to lie inside
  its level (`CursorOk`), because the source indexes it without a check.
- Ids.FormatSegments and Ids.FormatId require the Multi id's run to lie inside the pool. The
  source would panic on indexing beyond it.
- LiveStore.WriteAddKeepsResolvable is stated only for a write that adds a child. An overwrite can
  replace a class value with another, and then paths through that class may stop resolving. That
  is what the source does, so no such property is claimed for overwrites.
- LiveDocuments.LiveDocument.WriteMultiNode runs the loop over every segment but the last
  (`WalkToLast`) and then performs the last iteration (`WriteLast`). The branches and their order
  are the source's; the split only separates the read-only walk from the one iteration that writes.
- LiveDocuments.LiveDocument.FetchCrateModule requires a two-segment Multi id inside the pool.
  Any other id makes the source panic.
- EditorText.Text.Insert requires `SpliceFits`: the last inserted line must be at least as long
  as the target line. Otherwise the source's `splice` panics.
- Spans.Len requires end >= start. Otherwise the `usize` subtraction underflows.
- LiveDocuments.CreatedIdNamesSegments requires a pool shorter than 2^32 and fewer than 2^29
  segments. Beyond that, `Id::multi` masks the fields and the id names a different run.

## Findings

| source | as written | input that shows it | evidently intended | confidence | as-written member | corrected member |
|---|---|---|---|---|---|---|
| codeeditor/src/core/text.rs:59-62 | a multi-line `insert` splices the line's suffix into the last inserted line from index `self.lines[position.line].len()` onwards. The characters of that line beyond that index are dropped, and a last line shorter than the target line panics | inserting `["", "xyz"]` at line 0, column 1 of `["ab"]` gives `["a", "xyb"]` | extend the last inserted line with the suffix, as mace does, giving `["a", "xyzb"]`, which a delete of the inserted length undoes | not executed | TextLines.SplicedDropsCharacters | TextLines.InsertDeleteRoundTrip |

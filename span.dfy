/**
 * A source span packed into one 64-bit word: the live file id in bits
 * 48..63, the start offset in bits 24..47 and the end offset in bits 0..23.
 * The word is held as a number below 2^64; a shift by a constant and a mask
 * of low bits are the matching division and remainder by a power of two.
 */
module Spans {
  import opened Ids
  import opened Words

  const FIELD: nat := 0x100_0000
  const FILE_FIELD: nat := 0x1_0000
  const WORD: nat := 0x1_0000_0000_0000_0000

  /** A `u64` word. */
  type Word = n: nat | n < WORD

  datatype Span = Span(store: Word)

  /** `LiveFileId::to_index`: the file id as a number. */
  function FileIndex(fileId: LiveFileId): (n: nat)
    ensures n < FILE_FIELD
  {
    fileId as int
  }

  /**
   * `Span::new`: each field is masked to its width and shifted into place;
   * `start` and `end` are `usize`, so any natural number may be passed.
   */
  function NewSpan(fileId: LiveFileId, start: nat, end: nat): (s: Span)
    ensures s.store / (FIELD * FIELD) == FileIndex(fileId)
  {
    PackBounds(FileIndex(fileId), start % FIELD, end % FIELD);
    Span(FileIndex(fileId) * (FIELD * FIELD) + (start % FIELD) * FIELD + end % FIELD)
  }

  /** The packed word stays below 2^64, and its top field is the file index. */
  lemma PackBounds(f: nat, s: nat, e: nat)
    requires f < FILE_FIELD && s < FIELD && e < FIELD
    ensures f * (FIELD * FIELD) + s * FIELD + e < WORD
    ensures (f * (FIELD * FIELD) + s * FIELD + e) / (FIELD * FIELD) == f
    ensures (f * (FIELD * FIELD) + s * FIELD + e) / FIELD == f * FIELD + s
    ensures (f * (FIELD * FIELD) + s * FIELD + e) % FIELD == e
  {
    var low := s * FIELD + e;
    assert low < FIELD * FIELD by {
      assert s * FIELD <= (FIELD - 1) * FIELD;
    }
    assert f * (FIELD * FIELD) <= (FILE_FIELD - 1) * (FIELD * FIELD);
    DivModUnique(f * (FIELD * FIELD) + low, FIELD * FIELD, f, low);
    DivModUnique(f * (FIELD * FIELD) + low, FIELD, f * FIELD + s, e);
  }

  /** `Span::start`: bits 24..47. */
  function Start(s: Span): (r: nat)
    ensures r < FIELD
  {
    (s.store / FIELD) % FIELD
  }

  /** `Span::end`: bits 0..23. */
  function End(s: Span): (r: nat)
    ensures r < FIELD
  {
    s.store % FIELD
  }

  /** `Span::live_file_id`: bits 48..63, read back as a 16-bit file id. */
  function FileId(s: Span): (f: nat)
    ensures f < FILE_FIELD
  {
    (s.store / (FIELD * FIELD)) % FILE_FIELD
  }

  /**
   * `Span::len`: `end - start` on `usize`, which underflows (a panic in a
   * checked build) unless the end is at least the start.
   */
  function Len(s: Span): (n: nat)
    requires Start(s) <= End(s)
    ensures n <= End(s)
    ensures Start(s) + n == End(s)
  {
    End(s) - Start(s)
  }

  /** Offsets of any size are reduced modulo 2^24, not rejected; the file id survives whole. */
  lemma NewTruncates(fileId: LiveFileId, start: nat, end: nat)
    ensures Start(NewSpan(fileId, start, end)) == start % FIELD
    ensures End(NewSpan(fileId, start, end)) == end % FIELD
    ensures FileId(NewSpan(fileId, start, end)) == FileIndex(fileId)
  {
    FieldsOfPacked(FileIndex(fileId), start % FIELD, end % FIELD, NewSpan(fileId, start, end).store);
  }

  /** The three fields read back from a packed word. */
  lemma FieldsOfPacked(f: nat, s: nat, e: nat, w: nat)
    requires f < FILE_FIELD && s < FIELD && e < FIELD
    requires w == f * (FIELD * FIELD) + s * FIELD + e
    ensures (w / FIELD) % FIELD == s && w % FIELD == e && (w / (FIELD * FIELD)) % FILE_FIELD == f
  {
    PackBounds(f, s, e);
    DivModUnique(f * FIELD + s, FIELD, f, s);
    DivModUnique(f, FILE_FIELD, 0, f);
  }

  /** In-range offsets come back unchanged. */
  lemma NewRoundTrip(fileId: LiveFileId, start: nat, end: nat)
    requires start < FIELD && end < FIELD
    ensures Start(NewSpan(fileId, start, end)) == start
    ensures End(NewSpan(fileId, start, end)) == end
    ensures FileId(NewSpan(fileId, start, end)) == FileIndex(fileId)
  {
    NewTruncates(fileId, start, end);
  }

  /** An offset of 2^24 + 5 reads back as 5. */
  lemma StartWrapsExample(fileId: LiveFileId)
    ensures Start(NewSpan(fileId, FIELD + 5, 0)) == 5
  {
    NewTruncates(fileId, FIELD + 5, 0);
  }

  /** The fields occupy disjoint bits: changing one input leaves the other two fields as they were. */
  lemma FieldsIndependent(fileId: LiveFileId, start: nat, end: nat, fileId': LiveFileId, start': nat, end': nat)
    ensures Start(NewSpan(fileId, start, end)) == Start(NewSpan(fileId', start, end'))
    ensures End(NewSpan(fileId, start, end)) == End(NewSpan(fileId', start', end))
    ensures FileId(NewSpan(fileId, start, end)) == FileId(NewSpan(fileId, start', end'))
  {
    NewTruncates(fileId, start, end);
    NewTruncates(fileId', start, end');
    NewTruncates(fileId', start', end);
    NewTruncates(fileId, start', end');
  }

  /** The length of a span built from in-range offsets is their distance. */
  lemma LenOfNew(fileId: LiveFileId, start: nat, end: nat)
    requires start <= end < FIELD
    ensures Start(NewSpan(fileId, start, end)) <= End(NewSpan(fileId, start, end))
    ensures Len(NewSpan(fileId, start, end)) == end - start
  {
    NewRoundTrip(fileId, start, end);
  }
}

/** UCOMP01 framing: src/format.rs. */
module Format {
  import opened Bytes
  import opened Lzma

  const MAGIC: seq<byte> := [0x55, 0x43, 0x4F, 0x4D, 0x50, 0x30, 0x31, 0x00]
  const HEADER_LEN := 20
  const CHUNK_HDR_LEN := 9
  const MAX_CHUNKS := 1_000_000

  datatype ChunkMeta = ChunkMeta(preproc: byte, origSize: u32, compSize: u32)

  /** A chunk descriptor with the range of its payload. */
  datatype ChunkEntry = ChunkEntry(meta: ChunkMeta, start: nat, end: nat)

  datatype ArchiveHeader = ArchiveHeader(origSize: nat, chunks: seq<ChunkEntry>)

  // ---- Encoding ----

  function Record(m: ChunkMeta): (r: seq<byte>)
    ensures |r| == CHUNK_HDR_LEN
  {
    [m.preproc] + ToLE(4, m.origSize) + ToLE(4, m.compSize)
  }

  function Table(metas: seq<ChunkMeta>): (t: seq<byte>)
    ensures |t| == CHUNK_HDR_LEN * |metas|
  {
    if metas == [] then [] else Record(metas[0]) + Table(metas[1..])
  }

  /** The chunk count is cast to 32 bits, and `ToLE` truncates in the same way. */
  function EncodeHeader(origSize: nat, metas: seq<ChunkMeta>): (h: seq<byte>)
    ensures |h| == HEADER_LEN + CHUNK_HDR_LEN * |metas|
  {
    MAGIC + ToLE(8, origSize) + ToLE(4, |metas|) + Table(metas)
  }

  lemma {:induction false} TableAppend(xs: seq<ChunkMeta>, m: ChunkMeta)
    ensures Table(xs + [m]) == Table(xs) + Record(m)
  {
    if xs == [] {
      assert [] + [m] == [m] && [m][1..] == [];
    } else {
      assert (xs + [m])[1..] == xs[1..] + [m];
      TableAppend(xs[1..], m);
    }
  }

  /** Writes `s` at offset `at`, right after a finished prefix. */
  method WriteAt(a: array<byte>, at: nat, s: seq<byte>, ghost done: seq<byte>)
    requires at == |done| && at + |s| <= a.Length && a[..at] == done
    modifies a
    ensures a[..at + |s|] == done + s
  {
    for i := 0 to |s|
      invariant a[..at] == done
      invariant forall k :: 0 <= k < i ==> a[at + k] == s[k]
    {
      a[at + i] := s[i];
    }
    assert a[..at + |s|] == a[..at] + s;
  }

  /** The header buffer, filled field by field. */
  method BuildHeader(origSize: u64, metas: seq<ChunkMeta>) returns (hdr: array<byte>)
    ensures fresh(hdr) && hdr[..] == EncodeHeader(origSize, metas)
  {
    hide Record, Table, ToLE;
    hdr := new byte[HEADER_LEN + |metas| * CHUNK_HDR_LEN];
    WriteAt(hdr, 0, MAGIC, []);
    ghost var done := MAGIC;
    assert [] + MAGIC == MAGIC;
    WriteAt(hdr, 8, ToLE(8, origSize), done);
    done := done + ToLE(8, origSize);
    WriteAt(hdr, 16, ToLE(4, |metas|), done);
    done := done + ToLE(4, |metas|);
    ghost var fixed := done;
    NoRecords(fixed, metas);
    for i := 0 to |metas|
      invariant |done| == HEADER_LEN + i * CHUNK_HDR_LEN
      invariant hdr[..HEADER_LEN + i * CHUNK_HDR_LEN] == done == fixed + Table(metas[..i])
    {
      var base := HEADER_LEN + i * CHUNK_HDR_LEN;
      WriteAt(hdr, base, Record(metas[i]), done);
      OneMoreRecord(fixed, metas, i);
      done := done + Record(metas[i]);
    }
    assert metas[..|metas|] == metas;
  }

  lemma NoRecords(fixed: seq<byte>, metas: seq<ChunkMeta>)
    ensures fixed == fixed + Table(metas[..0])
  {
  }

  lemma OneMoreRecord(fixed: seq<byte>, metas: seq<ChunkMeta>, i: nat)
    requires i < |metas|
    ensures (fixed + Table(metas[..i])) + Record(metas[i]) == fixed + Table(metas[..i + 1])
  {
    TableAppend(metas[..i], metas[i]);
    assert metas[..i] + [metas[i]] == metas[..i + 1];
  }

  // ---- Parsing ----

  function RecordBase(i: nat): nat {
    HEADER_LEN + i * CHUNK_HDR_LEN
  }

  function ReadU32(data: seq<byte>, at: nat): u32
    requires at + 4 <= |data|
  {
    assert Pow256(4) == 0x1_0000_0000;
    FromLE(data[at..at + 4])
  }

  function ReadMeta(data: seq<byte>, i: nat): ChunkMeta
    requires RecordBase(i + 1) <= |data|
  {
    var base := RecordBase(i);
    ChunkMeta(data[base], ReadU32(data, base + 1), ReadU32(data, base + 5))
  }

  /** Records `i` to `n`, with the payload cursor at `pos` and `outPos` bytes of output accounted for. */
  function ParseTable(data: seq<byte>, i: nat, n: nat, pos: nat, outPos: nat, origSize: nat): Result<seq<ChunkEntry>>
    requires i <= n && RecordBase(n) <= |data|
    decreases n - i
  {
    if i == n then
      if outPos != origSize then Err(BadArchive) else Ok([])
    else
      var m := ReadMeta(data, i);
      if m.preproc > 6 || m.compSize == 0 then Err(BadArchive)
      else if pos + m.compSize > |data| then Err(BadArchive)
      else if outPos + m.origSize > origSize then Err(BadArchive)
      else
        Prepend([ChunkEntry(m, pos, pos + m.compSize)],
                ParseTable(data, i + 1, n, pos + m.compSize, outPos + m.origSize, origSize))
  }

  function ParseHeader(data: seq<byte>): Result<ArchiveHeader> {
    if |data| < HEADER_LEN || data[0..8] != MAGIC then Err(BadArchive)
    else
      var origSize := FromLE(data[8..16]);
      if origSize > MAX_OUTPUT then Err(TooLarge)
      else
        var n := ReadU32(data, 16);
        if n == 0 || n > MAX_CHUNKS then Err(BadArchive)
        else if |data| < RecordBase(n) then Err(BadArchive)
        else
          var chunks :- ParseTable(data, 0, n, RecordBase(n), 0, origSize);
          Ok(ArchiveHeader(origSize, chunks))
  }

  method ReadTable(data: seq<byte>, n: nat, tableEnd: nat, origSize: nat) returns (r: Result<seq<ChunkEntry>>)
    requires tableEnd == RecordBase(n) <= |data|
    ensures r == ParseTable(data, 0, n, tableEnd, 0, origSize)
  {
    hide ReadU32;
    ghost var all := ParseTable(data, 0, n, tableEnd, 0, origSize);
    var chunks: seq<ChunkEntry> := [];
    var pos: nat, outPos: nat := tableEnd, 0;
    PrependNothing(all);
    for i := 0 to n
      invariant all == Prepend(chunks, ParseTable(data, i, n, pos, outPos, origSize))
    {
      var base := HEADER_LEN + i * CHUNK_HDR_LEN;
      var preproc := data[base];
      if preproc > 6 {
        return Err(BadArchive);
      }
      var origSizeC, compSize := ReadU32(data, base + 1), ReadU32(data, base + 5);
      if compSize == 0 {
        return Err(BadArchive);
      }
      var end: nat := pos + compSize;
      if end > |data| {
        return Err(BadArchive);
      }
      if outPos + origSizeC > origSize {
        return Err(BadArchive);
      }
      outPos := outPos + origSizeC;
      var entry := ChunkEntry(ChunkMeta(preproc, origSizeC, compSize), pos, end);
      PrependAssociative(chunks, [entry], ParseTable(data, i + 1, n, end, outPos, origSize));
      chunks := chunks + [entry];
      pos := end;
    }
    if outPos != origSize {
      return Err(BadArchive);
    }
    assert chunks + [] == chunks;
    return Ok(chunks);
  }

  method ReadHeader(data: seq<byte>) returns (r: Result<ArchiveHeader>)
    ensures r == ParseHeader(data)
  {
    if |data| < HEADER_LEN || data[0..8] != MAGIC {
      return Err(BadArchive);
    }
    var origSize := FromLE(data[8..16]);
    if origSize > MAX_OUTPUT {
      return Err(TooLarge);
    }
    var n := ReadU32(data, 16);
    if n == 0 || n > MAX_CHUNKS {
      return Err(BadArchive);
    }
    var tableEnd := HEADER_LEN + n * CHUNK_HDR_LEN;
    if |data| < tableEnd {
      return Err(BadArchive);
    }
    var chunks :- ReadTable(data, n, tableEnd, origSize);
    return Ok(ArchiveHeader(origSize, chunks));
  }

  // ---- Soundness of acceptance ----

  function TotalOrig(chunks: seq<ChunkEntry>): nat {
    if chunks == [] then 0 else chunks[0].meta.origSize + TotalOrig(chunks[1..])
  }

  /** Non-empty payload ranges, each starting where the one before ends, inside `len` bytes. */
  predicate Consecutive(chunks: seq<ChunkEntry>, pos: nat, len: nat) {
    && pos <= len
    && (chunks == [] ||
        (&& chunks[0].start == pos && chunks[0].end == pos + chunks[0].meta.compSize && chunks[0].meta.compSize > 0
         && chunks[0].meta.preproc <= 6
         && Consecutive(chunks[1..], chunks[0].end, len)))
  }

  lemma {:induction false} ParseTableSound(data: seq<byte>, i: nat, n: nat, pos: nat, outPos: nat, origSize: nat)
    requires i <= n && RecordBase(n) <= |data| && pos <= |data|
    requires ParseTable(data, i, n, pos, outPos, origSize).Ok?
    ensures var chunks := ParseTable(data, i, n, pos, outPos, origSize).value;
            |chunks| == n - i && Consecutive(chunks, pos, |data|) && outPos + TotalOrig(chunks) == origSize
    decreases n - i
  {
    if i < n {
      var m := ReadMeta(data, i);
      ParseTableSound(data, i + 1, n, pos + m.compSize, outPos + m.origSize, origSize);
      var chunks := ParseTable(data, i, n, pos, outPos, origSize).value;
      assert chunks[1..] == ParseTable(data, i + 1, n, pos + m.compSize, outPos + m.origSize, origSize).value;
    }
  }

  /** Any bytes at all: what is accepted has in-range, consecutive, non-empty payloads and the declared total size. */
  lemma HeaderSound(data: seq<byte>)
    requires ParseHeader(data).Ok?
    ensures var h := ParseHeader(data).value;
            && 1 <= |h.chunks| <= MAX_CHUNKS && h.origSize <= MAX_OUTPUT
            && Consecutive(h.chunks, RecordBase(|h.chunks|), |data|) && TotalOrig(h.chunks) == h.origSize
  {
    var n := ReadU32(data, 16);
    ParseTableSound(data, 0, n, RecordBase(n), 0, FromLE(data[8..16]));
  }

  // ---- Round trip ----

  function SumOrig(metas: seq<ChunkMeta>): nat {
    if metas == [] then 0 else metas[0].origSize + SumOrig(metas[1..])
  }

  function SumComp(metas: seq<ChunkMeta>): nat {
    if metas == [] then 0 else metas[0].compSize + SumComp(metas[1..])
  }

  /** The entries a decoder should see: payloads one after the other from `pos`. */
  function Placed(metas: seq<ChunkMeta>, pos: nat): (es: seq<ChunkEntry>)
    ensures |es| == |metas|
  {
    if metas == [] then []
    else [ChunkEntry(metas[0], pos, pos + metas[0].compSize)] + Placed(metas[1..], pos + metas[0].compSize)
  }

  predicate Emittable(metas: seq<ChunkMeta>) {
    forall m :: m in metas ==> m.preproc <= 6 && m.compSize > 0
  }

  lemma {:induction false} RecordInTable(metas: seq<ChunkMeta>, i: nat)
    requires i < |metas|
    ensures Table(metas)[CHUNK_HDR_LEN * i..CHUNK_HDR_LEN * (i + 1)] == Record(metas[i])
  {
    hide Record;
    var t, r := Table(metas), Record(metas[0]);
    if i == 0 {
      assert t[..9] == r;
    } else {
      RecordInTable(metas[1..], i - 1);
      assert t[9..] == Table(metas[1..]);
      assert t[9 * i..9 * (i + 1)] == t[9..][9 * (i - 1)..9 * i];
    }
  }

  lemma RecordRead(data: seq<byte>, i: nat, m: ChunkMeta)
    requires RecordBase(i + 1) <= |data| && data[RecordBase(i)..RecordBase(i + 1)] == Record(m)
    ensures ReadMeta(data, i) == m
  {
    hide ToLE, FromLE;
    var base := RecordBase(i);
    var r := data[base..base + 9];
    assert Pow256(4) == 0x1_0000_0000;
    FromLEToLE(4, m.origSize);
    FromLEToLE(4, m.compSize);
    assert data[base] == r[0];
    assert data[base + 1..base + 5] == r[1..5] == ToLE(4, m.origSize);
    assert data[base + 5..base + 9] == r[5..9] == ToLE(4, m.compSize);
  }

  lemma InMiddle(front: seq<byte>, t: seq<byte>, back: seq<byte>, a: nat, b: nat)
    requires a <= b <= |t|
    ensures (front + t + back)[|front| + a..|front| + b] == t[a..b]
  {
  }

  lemma HeaderFields(origSize: nat, metas: seq<ChunkMeta>, payloads: seq<byte>)
    requires origSize <= U64_MAX && |metas| <= MAX_CHUNKS
    ensures var data := EncodeHeader(origSize, metas) + payloads;
            && data[0..8] == MAGIC && FromLE(data[8..16]) == origSize && ReadU32(data, 16) == |metas|
            && forall i :: 0 <= i < |metas| ==> ReadMeta(data, i) == metas[i]
  {
    hide ToLE, FromLE, Record, Table;
    var data := EncodeHeader(origSize, metas) + payloads;
    assert data[0..8] == MAGIC && data[8..16] == ToLE(8, origSize) && data[16..20] == ToLE(4, |metas|);
    FromLEToLE(8, origSize);
    FromLEToLE(4, |metas|);
    assert Pow256(8) == 0x1_0000_0000_0000_0000 && Pow256(4) == 0x1_0000_0000;
    forall i | 0 <= i < |metas| ensures ReadMeta(data, i) == metas[i] {
      RecordInTable(metas, i);
      var t := Table(metas);
      InMiddle(MAGIC + ToLE(8, origSize) + ToLE(4, |metas|), t, payloads, 9 * i, 9 * (i + 1));
      RecordRead(data, i, metas[i]);
    }
  }

  /** A table is accepted exactly when every record is, the payloads fit, and the original sizes add up. */
  lemma {:induction false} TableExact(data: seq<byte>, metas: seq<ChunkMeta>, i: nat, pos: nat, outPos: nat, origSize: nat)
    requires i <= |metas| && RecordBase(|metas|) <= |data| && pos <= |data|
    requires forall k :: 0 <= k < |metas| ==> ReadMeta(data, k) == metas[k]
    ensures ParseTable(data, i, |metas|, pos, outPos, origSize)
            == if Emittable(metas[i..]) && pos + SumComp(metas[i..]) <= |data| && outPos + SumOrig(metas[i..]) == origSize
               then Ok(Placed(metas[i..], pos)) else Err(BadArchive)
    decreases |metas| - i
  {
    hide ReadMeta;
    if i < |metas| {
      var m := metas[i];
      assert metas[i..] == [m] + metas[i + 1..];
      if pos + m.compSize <= |data| {
        TableExact(data, metas, i + 1, pos + m.compSize, outPos + m.origSize, origSize);
      }
    }
  }

  function Metas(data: seq<byte>, n: nat): (metas: seq<ChunkMeta>)
    requires RecordBase(n) <= |data|
    ensures |metas| == n && forall k :: 0 <= k < n ==> metas[k] == ReadMeta(data, k)
  {
    seq(n, k requires 0 <= k < n => ReadMeta(data, k))
  }

  /**
   * Any bytes at all: a header is accepted exactly when the magic, the size, the count, the types, the payload
   * sizes and the sum are right, and which error comes out otherwise.
   */
  lemma HeaderExact(data: seq<byte>)
    ensures |data| < 20 || data[0..8] != [0x55, 0x43, 0x4F, 0x4D, 0x50, 0x30, 0x31, 0x00] ==> ParseHeader(data) == Err(BadArchive)
    ensures |data| >= 20 && data[0..8] == [0x55, 0x43, 0x4F, 0x4D, 0x50, 0x30, 0x31, 0x00] ==>
              var size, n := FromLE(data[8..16]), FromLE(data[16..20]);
              if size > 0x8000_0000 then ParseHeader(data) == Err(TooLarge)
              else if n == 0 || n > 1_000_000 || |data| < 20 + 9 * n then ParseHeader(data) == Err(BadArchive)
              else
                var metas := Metas(data, n);
                ParseHeader(data)
                == if Emittable(metas) && 20 + 9 * n + SumComp(metas) <= |data| && SumOrig(metas) == size
                   then Ok(ArchiveHeader(size, Placed(metas, 20 + 9 * n))) else Err(BadArchive)
  {
    hide FromLE, ReadMeta, ParseTable;
    if |data| >= 20 {
      var size, n := FromLE(data[8..16]), FromLE(data[16..20]);
      if |data| >= 20 + 9 * n {
        var metas := Metas(data, n);
        assert metas[0..] == metas;
        TableExact(data, metas, 0, RecordBase(n), 0, size);
      }
    }
  }

  /** A written header reads back as it was, exactly when the original sizes add up to the declared one. */
  lemma HeaderRoundTrip(origSize: nat, metas: seq<ChunkMeta>, payloads: seq<byte>)
    requires origSize <= MAX_OUTPUT && 1 <= |metas| <= MAX_CHUNKS && Emittable(metas) && SumComp(metas) <= |payloads|
    ensures ParseHeader(EncodeHeader(origSize, metas) + payloads)
            == if SumOrig(metas) == origSize then Ok(ArchiveHeader(origSize, Placed(metas, RecordBase(|metas|)))) else Err(BadArchive)
  {
    HeaderFields(origSize, metas, payloads);
    assert metas[0..] == metas;
    TableExact(EncodeHeader(origSize, metas) + payloads, metas, 0, RecordBase(|metas|), 0, origSize);
  }
}

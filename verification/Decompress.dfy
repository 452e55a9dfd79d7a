/** UCOMP01 decoding: the preprocessing undo and the sequential meaning of src/decompress.rs. */
module Decompress {
  import opened Bytes
  import opened Normalize
  import opened Elf
  import opened Transforms
  import opened CodeSections
  import opened Lzma
  import opened Format
  import Delta

  // ---- Undoing the preprocessing ----

  /** The sections are found again in the transformed bytes. */
  function UndoBlob(buf: seq<byte>, planed: bool): (r: seq<byte>)
    ensures |r| == |buf|
  {
    match Parse(buf)
    case None => buf
    case Some(info) =>
      ParseBounds(buf);
      ApplySections(buf, info.sections, SectionTransform(info.arch, planed), Decode)
  }

  function UndoPreproc(payload: seq<byte>, preproc: byte): (r: Result<seq<byte>>)
    ensures r.Ok? ==> |r.value| == |payload|
  {
    if preproc == 0 then Ok(payload)
    else if preproc == 1 then Ok(Apply(ArmPlaned, payload, Decode))
    else if preproc == 2 || preproc == 5 then Ok(Delta.Sums(0, payload))
    else if preproc == 3 then Ok(UndoBlob(payload, false))
    else if preproc == 4 then Ok(UndoBlob(payload, true))
    else if preproc == 6 then Ok(UndoBlob(Delta.Sums(0, payload), false))
    else Err(BadArchive)
  }

  method UndoSections(buf: array<byte>, planed: bool)
    modifies buf
    ensures buf[..] == UndoBlob(old(buf[..]), planed)
  {
    hide Parse, ApplySections;
    var parsed := ParseSections(buf[..]);
    if parsed.Some? {
      ParseBounds(buf[..]);
      TransformSections(buf, parsed.value.sections, SectionTransform(parsed.value.arch, planed), Decode);
    }
  }

  method Undo(payload: seq<byte>, preproc: byte) returns (r: Result<seq<byte>>)
    ensures r == UndoPreproc(payload, preproc)
  {
    var buf := new byte[|payload|](i requires 0 <= i < |payload| => payload[i]);
    assert buf[..] == payload;
    hide UndoBlob, Delta.Sums, Apply;
    match preproc {
      case 0 =>
      case 1 =>
        UnplaneSection(buf, 0, buf.Length);
        WholeSplice(payload, Apply(ArmPlaned, payload, Decode));
      case 2 | 5 =>
        Delta.Decode(buf, 0, buf.Length);
        WholeSplice(payload, Delta.Sums(0, payload));
      case 3 => UndoSections(buf, false);
      case 4 => UndoSections(buf, true);
      case 6 =>
        Delta.Decode(buf, 0, buf.Length);
        WholeSplice(payload, Delta.Sums(0, payload));
        UndoSections(buf, false);
      case _ => return Err(BadArchive);
    }
    return Ok(buf[..]);
  }

  lemma WholeSplice(s: seq<byte>, t: seq<byte>)
    requires |t| == |s|
    ensures s[0..|s|] == s && Splice(s, 0, |s|, t) == t
  {
  }

  // ---- Chunks and whole archives ----

  predicate InFile(e: ChunkEntry, len: nat) {
    e.start <= e.end <= len
  }

  function DecodeChunk(codec: Codec, data: seq<byte>, e: ChunkEntry): (r: Result<seq<byte>>)
    requires InFile(e, |data|)
    ensures r.Ok? ==> |r.value| == e.meta.origSize
  {
    match DecompressBuf(codec, data[e.start..e.end], e.meta.origSize)
    case Err(_) => Err(Error.Lzma)
    case Ok(payload) =>
      var plain :- UndoPreproc(payload, e.meta.preproc);
      if |plain| != e.meta.origSize then Err(BadArchive) else Ok(plain)
  }

  /** What one thread does with one chunk. */
  method RunChunk(codec: Codec, data: seq<byte>, e: ChunkEntry) returns (r: Result<seq<byte>>)
    requires InFile(e, |data|)
    ensures r == DecodeChunk(codec, data, e)
  {
    var payload := DecompressBuf(codec, data[e.start..e.end], e.meta.origSize);
    if payload.Err? {
      return Err(Error.Lzma);
    }
    var plain :- Undo(payload.value, e.meta.preproc);
    if |plain| != e.meta.origSize {
      return Err(BadArchive);
    }
    return Ok(plain);
  }

  function DecodeAll(codec: Codec, data: seq<byte>, es: seq<ChunkEntry>): seq<Result<seq<byte>>>
    requires forall e :: e in es ==> InFile(e, |data|)
  {
    seq(|es|, i requires 0 <= i < |es| => DecodeChunk(codec, data, es[i]))
  }

  /** The first error in chunk order, or all the pieces joined: decoding one chunk after the other. */
  function Sequential(results: seq<Result<seq<byte>>>): Result<seq<byte>> {
    if results == [] then Ok([])
    else if results[0].Err? then results[0]
    else Prepend(results[0].value, Sequential(results[1..]))
  }

  lemma {:induction false} ConsecutiveInFile(es: seq<ChunkEntry>, pos: nat, len: nat)
    requires Consecutive(es, pos, len)
    ensures forall e :: e in es ==> InFile(e, len)
  {
    if es != [] {
      ConsecutiveInFile(es[1..], es[0].end, len);
      assert Consecutive(es[1..], es[0].end, len);
    }
  }

  function DecompressBytes(codec: Codec, data: seq<byte>): Result<seq<byte>> {
    match ParseHeader(data)
    case Err(e) => Err(e)
    case Ok(h) =>
      HeaderSound(data);
      ConsecutiveInFile(h.chunks, Format.RecordBase(|h.chunks|), |data|);
      if |h.chunks| == 1 then
        var plain :- DecodeChunk(codec, data, h.chunks[0]);
        if |plain| != h.origSize then Err(BadArchive) else Ok(plain)
      else Sequential(DecodeAll(codec, data, h.chunks))
  }

  /** The payload of a chunk through the codec. */
  function Decoded(codec: Codec, data: seq<byte>, e: ChunkEntry): Result<seq<byte>>
    requires InFile(e, |data|)
  {
    DecompressBuf(codec, data[e.start..e.end], e.meta.origSize)
  }

  predicate Decodes(codec: Codec, data: seq<byte>, e: ChunkEntry) {
    InFile(e, |data|) && e.meta.preproc <= 6 && Decoded(codec, data, e).Ok?
  }

  /** Every chunk lies in the file, is of a known type, and its payload decodes. */
  predicate AllDecode(codec: Codec, data: seq<byte>, es: seq<ChunkEntry>) {
    forall e :: e in es ==> Decodes(codec, data, e)
  }

  /** The chunks decoded and undone, one after the other. */
  function JoinedPlain(codec: Codec, data: seq<byte>, es: seq<ChunkEntry>): seq<byte>
    requires AllDecode(codec, data, es)
  {
    if es == [] then []
    else
      assert Decodes(codec, data, es[0]);
      UndoPreproc(Decoded(codec, data, es[0]).value, es[0].meta.preproc).value + JoinedPlain(codec, data, es[1..])
  }

  lemma OneChunkExact(codec: Codec, data: seq<byte>, e: ChunkEntry)
    requires InFile(e, |data|) && e.meta.preproc <= 6
    ensures DecodeChunk(codec, data, e)
            == if Decoded(codec, data, e).Ok? then UndoPreproc(Decoded(codec, data, e).value, e.meta.preproc) else Err(Error.Lzma)
    ensures Decoded(codec, data, e).Ok? ==> UndoPreproc(Decoded(codec, data, e).value, e.meta.preproc).Ok?
  {
  }

  lemma {:induction false} ChunksExact(codec: Codec, data: seq<byte>, es: seq<ChunkEntry>)
    requires forall e :: e in es ==> InFile(e, |data|) && e.meta.preproc <= 6
    ensures Sequential(DecodeAll(codec, data, es))
            == if AllDecode(codec, data, es) then Ok(JoinedPlain(codec, data, es)) else Err(Error.Lzma)
  {
    hide DecodeChunk, UndoPreproc;
    if es != [] {
      assert es[0] in es && es == [es[0]] + es[1..];
      OneChunkExact(codec, data, es[0]);
      ChunksExact(codec, data, es[1..]);
      assert DecodeAll(codec, data, es)[1..] == DecodeAll(codec, data, es[1..]);
    }
  }

  lemma {:induction false} ConsecutiveTypes(es: seq<ChunkEntry>, pos: nat, len: nat)
    requires Consecutive(es, pos, len)
    ensures forall e :: e in es ==> e.meta.preproc <= 6
  {
    if es != [] {
      ConsecutiveTypes(es[1..], es[0].end, len);
    }
  }

  lemma JoinedOne(codec: Codec, data: seq<byte>, e: ChunkEntry)
    requires InFile(e, |data|) && e.meta.preproc <= 6
    ensures AllDecode(codec, data, [e]) <==> Decoded(codec, data, e).Ok?
    ensures Decoded(codec, data, e).Ok? ==>
              JoinedPlain(codec, data, [e]) == UndoPreproc(Decoded(codec, data, e).value, e.meta.preproc).value
  {
    hide UndoPreproc;
    assert e in [e];
    if Decoded(codec, data, e).Ok? {
      assert [e][1..] == [] && JoinedPlain(codec, data, []) == [];
    }
  }

  /**
   * Any archive at all: a header that is refused is the result; otherwise decoding gives every chunk decoded and
   * undone, in order, if every payload decodes, and the codec's error if not.
   */
  lemma DecompressExact(codec: Codec, data: seq<byte>)
    ensures ParseHeader(data).Err? ==> DecompressBytes(codec, data) == Err(ParseHeader(data).error)
    ensures ParseHeader(data).Ok? ==>
              var es := ParseHeader(data).value.chunks;
              && (forall e :: e in es ==> InFile(e, |data|) && e.meta.preproc <= 6)
              && DecompressBytes(codec, data)
                 == if AllDecode(codec, data, es) then Ok(JoinedPlain(codec, data, es)) else Err(Error.Lzma)
  {
    hide ParseHeader, DecodeChunk, UndoPreproc;
    if ParseHeader(data).Ok? {
      var es := ParseHeader(data).value.chunks;
      HeaderSound(data);
      ConsecutiveInFile(es, Format.RecordBase(|es|), |data|);
      ConsecutiveTypes(es, Format.RecordBase(|es|), |data|);
      ChunksExact(codec, data, es);
      if |es| == 1 {
        DeclaredSizeUnreachable(codec, data);
        OneChunkExact(codec, data, es[0]);
        assert es == [es[0]] && es[1..] == [];
        JoinedOne(codec, data, es[0]);
      }
    }
  }


  /** The postprocessing size checks never fire: every undo keeps the length. */
  lemma SizeMismatchUnreachable(codec: Codec, data: seq<byte>, e: ChunkEntry)
    requires InFile(e, |data|) && e.meta.preproc <= 6
    requires DecompressBuf(codec, data[e.start..e.end], e.meta.origSize).Ok?
    ensures DecodeChunk(codec, data, e).Ok?
  {
  }

  /** Nor does the comparison with the declared size on the fast path. */
  lemma DeclaredSizeUnreachable(codec: Codec, data: seq<byte>)
    requires ParseHeader(data).Ok? && |ParseHeader(data).value.chunks| == 1
    ensures InFile(ParseHeader(data).value.chunks[0], |data|)
    ensures var h := ParseHeader(data).value;
            && h.chunks[0].meta.origSize == h.origSize && h.chunks[0].meta.preproc <= 6
            && DecompressBytes(codec, data) == DecodeChunk(codec, data, h.chunks[0])
            && (DecompressBuf(codec, data[h.chunks[0].start..h.chunks[0].end], h.origSize).Ok? ==> DecompressBytes(codec, data).Ok?)
  {
    hide ParseHeader, DecodeChunk;
    var h := ParseHeader(data).value;
    HeaderSound(data);
    ConsecutiveInFile(h.chunks, Format.RecordBase(1), |data|);
    assert TotalOrig(h.chunks) == h.chunks[0].meta.origSize + TotalOrig(h.chunks[1..]);
    assert h.chunks[1..] == [];
    if DecompressBuf(codec, data[h.chunks[0].start..h.chunks[0].end], h.origSize).Ok? {
      SizeMismatchUnreachable(codec, data, h.chunks[0]);
    }
  }
}

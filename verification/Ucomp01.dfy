/** UCOMP01 end to end: whatever the encoder emits, the decoder turns back into the input. */
module Ucomp01 {
  import opened Bytes
  import opened Normalize
  import opened Elf
  import opened Transforms
  import opened CodeSections
  import opened Lzma
  import opened Format
  import opened Selection
  import opened Decompress
  import opened Chunking
  import opened ChunkSearch
  import opened Compress
  import Delta

  // ---- Re-parsing transformed files ----

  /** No code section touches the header or a record that the parser visits. */
  ghost predicate CodeClear(data: seq<byte>, secs: seq<Section>)
    requires |data| >= EHDR_SIZE
  {
    forall s :: s in secs && s.isCode ==>
      && s.offset >= EHDR_SIZE
      && forall k :: 0 <= k < ShNum(data) && Elf.RecordBase(data, k) + SHDR_SIZE <= |data| ==>
           s.End() <= Elf.RecordBase(data, k) || Elf.RecordBase(data, k) + SHDR_SIZE <= s.offset
  }

  /** What the System V ABI asks of an object file: sections do not overlap, nor cover the tables. */
  ghost predicate Conformant(data: seq<byte>) {
    Parse(data).Some? ==>
      SectionsApart(Parse(data).value.sections) && CodeClear(data, Parse(data).value.sections)
  }

  lemma WindowUnchanged(data: seq<byte>, secs: seq<Section>, xf: Transform, lo: nat, hi: nat)
    requires SectionsFit(secs, |data|) && lo <= hi <= |data|
    requires forall s :: s in secs && s.isCode ==> s.End() <= lo || hi <= s.offset
    ensures ApplySections(data, secs, xf, Encode)[lo..hi] == data[lo..hi]
  {
    var rs := CodeRanges(secs, xf);
    CodeRangesInBounds(secs, xf, |data|);
    CodeRangesFrom(secs, xf);
    forall k | lo <= k < hi ensures ApplySections(data, secs, xf, Encode)[k] == data[k] {
      forall r | r in rs ensures k < r.off || r.End() <= k {
        var s :| s in secs && s.isCode && r.off == s.offset && r.End() == s.End();
      }
      OutsideUnchanged(data, rs, Encode, k);
    }
  }

  /** The transformed file parses to the same architecture and sections. */
  lemma ReparseStable(data: seq<byte>, xf: Transform)
    requires Parse(data).Some? && CodeClear(data, Parse(data).value.sections)
    ensures SectionsFit(Parse(data).value.sections, |data|)
    ensures Parse(ApplySections(data, Parse(data).value.sections, xf, Encode)) == Parse(data)
  {
    var secs := Parse(data).value.sections;
    ParseBounds(data);
    var e := ApplySections(data, secs, xf, Encode);
    WindowUnchanged(data, secs, xf, 0, EHDR_SIZE);
    assert e[..EHDR_SIZE] == e[0..EHDR_SIZE] && data[..EHDR_SIZE] == data[0..EHDR_SIZE];
    forall k | 0 <= k < ShNum(data) && Elf.RecordBase(data, k) + SHDR_SIZE <= |data|
      ensures var base := Elf.RecordBase(data, k); data[base..base + SHDR_SIZE] == e[base..base + SHDR_SIZE]
    {
      WindowUnchanged(data, secs, xf, Elf.RecordBase(data, k), Elf.RecordBase(data, k) + SHDR_SIZE);
    }
    ParseFrame(data, e);
  }

  /** The encoder's output for types 3 and 6, or for type 4, still parses to the same architecture and sections. */
  ghost predicate ParsesAlike(data: seq<byte>, planed: bool)
    requires Parse(data).Some?
  {
    ParseBounds(data);
    var info := Parse(data).value;
    var again := Parse(ApplySections(data, info.sections, SectionTransform(info.arch, planed), Encode));
    again.Some? && again.value.arch == info.arch && again.value.sections == info.sections
  }

  lemma ClearParsesAlike(data: seq<byte>, planed: bool)
    requires Parse(data).Some? && CodeClear(data, Parse(data).value.sections)
    ensures ParsesAlike(data, planed)
  {
    hide ApplySections, CodeClear;
    ReparseStable(data, SectionTransform(Parse(data).value.arch, planed));
  }

  /** The decoder finds exactly the ranges the encoder transformed, and restores the file exactly when their order
      did not matter. */
  lemma BlobRoundTrip(data: seq<byte>, planed: bool)
    requires Parse(data).Some? && ParsesAlike(data, planed)
    ensures var info := Parse(data).value;
            var xf := SectionTransform(info.arch, planed);
            && SectionsFit(info.sections, |data|)
            && (UndoBlob(ApplySections(data, info.sections, xf, Encode), planed) == data
                <==> SectionsOrderFree(data, info.sections, xf))
  {
    hide ApplySections, SectionsOrderFree;
    var info := Parse(data).value;
    var xf := SectionTransform(info.arch, planed);
    ParseBounds(data);
    SectionsUndoExact(data, info.sections, xf);
  }

  /** A layout as the callers of the encoder build it: the file's sections, or the file as one opaque chunk. */
  ghost predicate Describes(data: seq<byte>, chunks: seq<Chunk>, arch: Option<Arch>) {
    Layout(chunks, arch) == BuildChunks(data) || (chunks == WholeFile(|data|) && arch == None)
  }

  lemma DescribedFits(data: seq<byte>, chunks: seq<Chunk>, arch: Option<Arch>)
    requires Describes(data, chunks, arch)
    ensures SectionsFit(chunks, |data|) && 1 <= |chunks| <= MAX_CHUNKS
    ensures |chunks| > 1 ==> arch.Some?
    ensures arch.Some? ==> && Parse(data).Some? && arch.value == Parse(data).value.arch
                           && Layout(chunks, arch) == BuildChunks(data)
                           && forall xf :: CodeRanges(chunks, xf) == CodeRanges(Parse(data).value.sections, xf)
  {
    if arch.Some? {
      forall xf ensures CodeRanges(chunks, xf) == CodeRanges(Parse(data).value.sections, xf) {
        ChunkPartition(data, xf);
      }
      ChunkPartition(data, ArmBranch);
    }
  }

  lemma SameCodeSameBytes(data: seq<byte>, a: seq<Section>, b: seq<Section>, xf: Transform)
    requires SectionsFit(a, |data|) && SectionsFit(b, |data|) && CodeRanges(a, xf) == CodeRanges(b, xf)
    ensures ApplySections(data, a, xf, Encode) == ApplySections(data, b, xf, Encode)
  {
  }

  /** The types whose undo parses the file again. */
  predicate IsCodeType(t: byte) {
    t == 3 || t == 4 || t == 6
  }

  /** The code of the file may be transformed for type `t` in any order. */
  ghost predicate CodeOrderFreeFor(data: seq<byte>, t: byte)
    requires Parse(data).Some?
  {
    ParseBounds(data);
    SectionsOrderFree(data, Parse(data).value.sections, SectionTransform(Parse(data).value.arch, t == 4))
  }

  /**
   * What undoing a whole-file variant of type `t` gives: the file, for the types that do not look at its sections;
   * for the others always some file of that length, which, if the transformed file still parses to the same
   * sections, is the right one exactly when the order of the code sections does not matter.
   */
  ghost predicate ModeOutcome(data: seq<byte>, t: byte, back: Result<seq<byte>>) {
    if !IsCodeType(t) then back == Ok(data)
    else
      && Parse(data).Some? && back.Ok? && |back.value| == |data|
      && (ParsesAlike(data, t == 4) ==> (back == Ok(data) <==> CodeOrderFreeFor(data, t)))
  }

  lemma PlainModesUndone(data: seq<byte>, chunks: seq<Chunk>, arch: Option<Arch>, t: byte)
    requires SectionsFit(chunks, |data|) && (t == 0 || t == 5)
    ensures UndoPreproc(ModeBuffer(data, chunks, arch, t), t) == Ok(data)
  {
    hide Delta.Differences, Delta.Sums;
    Delta.SumsOfDifferences(0, data);
  }

  lemma CodeModesUndone(data: seq<byte>, chunks: seq<Chunk>, arch: Option<Arch>, t: byte)
    requires Describes(data, chunks, arch) && SectionsFit(chunks, |data|) && arch.Some? && IsCodeType(t) && (t == 4 ==> arch == Some(Arm64))
    ensures ModeOutcome(data, t, UndoPreproc(ModeBuffer(data, chunks, arch, t), t))
  {
    hide ApplySections, Delta.Differences, Delta.Sums, UndoBlob, Describes, ParsesAlike, SectionsOrderFree;
    DescribedFits(data, chunks, arch);
    ParseBounds(data);
    var info := Parse(data).value;
    var xf := SectionTransform(info.arch, t == 4);
    SameCodeSameBytes(data, chunks, info.sections, xf);
    Delta.SumsOfDifferences(0, BranchNormalized(data, chunks, arch));
    if ParsesAlike(data, t == 4) {
      BlobRoundTrip(data, t == 4);
    }
  }

  /** Every whole-file variant the optimizer may choose. */
  lemma ModesUndone(data: seq<byte>, chunks: seq<Chunk>, arch: Option<Arch>, level: nat, t: byte)
    requires Describes(data, chunks, arch) && t in ModeTypes(arch, level, |chunks|)
    ensures SectionsFit(chunks, |data|) && t <= 6
    ensures ModeOutcome(data, t, UndoPreproc(ModeBuffer(data, chunks, arch, t), t))
  {
    hide UndoPreproc, ModeBuffer, Describes, ParsesAlike, SectionsOrderFree;
    DescribedFits(data, chunks, arch);
    assert t in {0, 3, 4, 5, 6};
    if IsCodeType(t) {
      CodeModesUndone(data, chunks, arch, t);
    } else {
      PlainModesUndone(data, chunks, arch, t);
    }
  }

  // ---- The single-blob layout ----

  lemma OneMeta(m: ChunkMeta)
    ensures SumOrig([m]) == m.origSize && SumComp([m]) == m.compSize
  {
    assert [m][1..] == [];
    assert SumOrig([]) == 0 && SumComp([]) == 0;
  }

  lemma BufferUndoes(codec: Codec, payload: seq<byte>, size: nat, buffer: seq<byte>, t: byte)
    requires DecompressBuf(codec, payload, size) == Ok(buffer) && t <= 6
    ensures |buffer| == size && UndoPreproc(buffer, t).Ok?
  {
  }

  /** A single-blob image decodes to what the undo makes of its buffer. */
  lemma SingleRoundTrip(codec: Codec, data: seq<byte>, t: byte, payload: seq<byte>, buffer: seq<byte>)
    requires |data| <= MAX_OUTPUT && t <= 6 && 1 <= |payload| <= U32_MAX
    requires DecompressBuf(codec, payload, |data|) == Ok(buffer)
    ensures DecompressBytes(codec, SingleImage(|data|, t, payload)) == UndoPreproc(buffer, t)
  {
    hide EncodeHeader, ParseHeader, DecompressBuf, UndoPreproc;
    assert |buffer| == |data| && UndoPreproc(buffer, t).Ok? by { BufferUndoes(codec, payload, |data|, buffer, t); }
    var m := ChunkMeta(t, |data|, |payload|);
    var image := SingleImage(|data|, t, payload);
    OneMeta(m);
    HeaderRoundTrip(|data|, [m], payload);
    var es := Placed([m], Format.RecordBase(1));
    assert es == [ChunkEntry(m, 29, 29 + |payload|)];
    assert image[29..29 + |payload|] == payload;
  }

  // ---- The multi-block layout ----

  function Gather(data: seq<byte>, chunks: seq<Chunk>): seq<byte>
    requires SectionsFit(chunks, |data|)
  {
    if chunks == [] then [] else Slice(data, chunks[0]) + Gather(data, chunks[1..])
  }

  lemma {:induction false} GatherTiles(data: seq<byte>, chunks: seq<Chunk>, pos: nat)
    requires SectionsFit(chunks, |data|) && pos <= |data| && Tiles(chunks, pos, |data|)
    ensures Gather(data, chunks) == data[pos..]
  {
    if chunks != [] {
      GatherTiles(data, chunks[1..], chunks[0].End());
      assert data[pos..] == data[pos..chunks[0].End()] + data[chunks[0].End()..];
    }
  }

  /** What one chunk result promises: table figures in range, and a payload that decodes to the chunk. */
  ghost predicate GoodResult(codec: Codec, r: ChunkResult, plain: seq<byte>) {
    && r.preproc <= 2 && r.origSize == |plain| && 1 <= |r.compressed| <= U32_MAX
    && var payload := DecompressBuf(codec, r.compressed, |plain|);
       payload.Ok? && UndoPreproc(payload.value, r.preproc) == Ok(plain)
  }

  lemma FirstChunk(codec: Codec, data: seq<byte>, chunks: seq<Chunk>, arch: Option<Arch>, level: nat, rs: seq<ChunkResult>)
    requires SectionsFit(chunks, |data|) && |data| <= MAX_OUTPUT && chunks != []
    requires BestChunks(codec, data, chunks, arch, level) == Ok(rs)
    ensures chunks[0].End() <= |data| && SectionsFit(chunks[1..], |data|) && rs != []
    ensures BestChunks(codec, data, chunks[1..], arch, level) == Ok(rs[1..])
    ensures GoodResult(codec, rs[0], Slice(data, chunks[0]))
  {
    hide CompressChunkBest, DecompressBuf, UndoPreproc;
    var c := chunks[0];
    assert c in chunks;
    ChunkRoundTrip(codec, Slice(data, c), c.isCode, arch, level);
    assert rs[1..] == BestChunks(codec, data, chunks[1..], arch, level).value;
  }

  lemma FirstMeta(metas: seq<ChunkMeta>, pos: nat)
    requires metas != []
    ensures var m, rest := metas[0], metas[1..];
            && SumOrig(metas) == m.origSize + SumOrig(rest) && SumComp(metas) == m.compSize + SumComp(rest)
            && Placed(metas, pos) == [ChunkEntry(m, pos, pos + m.compSize)] + Placed(rest, pos + m.compSize)
            && (m.preproc <= 6 && m.compSize > 0 && Emittable(rest) ==> Emittable(metas))
  {
    assert metas == [metas[0]] + metas[1..];
  }

  /** The figures in the chunk table are those of the chunks. */
  ghost predicate TableAddsUp(rs: seq<ChunkResult>, chunks: seq<Chunk>) {
    && |rs| == |chunks| && Emittable(MetasOf(rs))
    && SumOrig(MetasOf(rs)) == SumSizes(chunks) && SumComp(MetasOf(rs)) == |PayloadsOf(rs)|
  }

  lemma NoTable()
    ensures TableAddsUp([], [])
  {
  }

  lemma ConsTable(r: ChunkResult, rest: seq<ChunkResult>, c: Chunk, chunks: seq<Chunk>)
    requires TableAddsUp(rest, chunks) && r.preproc <= 2 && r.origSize == c.size <= MAX_OUTPUT && 1 <= |r.compressed| <= U32_MAX
    ensures TableAddsUp([r] + rest, [c] + chunks)
  {
    var rs := [r] + rest;
    assert rs[1..] == rest && ([c] + chunks)[1..] == chunks;
    assert MetasOf(rs)[1..] == MetasOf(rest);
    FirstMeta(MetasOf(rs), 0);
  }

  lemma {:induction false} MetasAddUp(codec: Codec, data: seq<byte>, chunks: seq<Chunk>, arch: Option<Arch>, level: nat, rs: seq<ChunkResult>)
    requires SectionsFit(chunks, |data|) && |data| <= MAX_OUTPUT && BestChunks(codec, data, chunks, arch, level) == Ok(rs)
    ensures TableAddsUp(rs, chunks)
  {
    hide TableAddsUp, CompressChunkBest, DecompressBuf, UndoPreproc;
    if chunks == [] {
      NoTable();
    } else {
      FirstChunk(codec, data, chunks, arch, level, rs);
      MetasAddUp(codec, data, chunks[1..], arch, level, rs[1..]);
      ConsTable(rs[0], rs[1..], chunks[0], chunks[1..]);
      assert rs == [rs[0]] + rs[1..] && chunks == [chunks[0]] + chunks[1..];
    }
  }

  /** The payloads placed from `pos` on decode, one after the other, to `plain`. */
  ghost predicate Decodes(codec: Codec, image: seq<byte>, metas: seq<ChunkMeta>, pos: nat, plain: seq<byte>) {
    var es := Placed(metas, pos);
    (forall e :: e in es ==> InFile(e, |image|)) && Sequential(DecodeAll(codec, image, es)) == Ok(plain)
  }

  lemma NothingDecodes(codec: Codec, image: seq<byte>, pos: nat)
    ensures Decodes(codec, image, [], pos, [])
  {
  }

  lemma PayloadDecodes(codec: Codec, image: seq<byte>, r: ChunkResult, pos: nat, plain: seq<byte>)
    requires GoodResult(codec, r, plain) && |plain| <= MAX_OUTPUT
    requires pos + |r.compressed| <= |image| && image[pos..pos + |r.compressed|] == r.compressed
    ensures DecodeChunk(codec, image, ChunkEntry(MetaOf(r), pos, pos + |r.compressed|)) == Ok(plain)
  {
    hide DecompressBuf, UndoPreproc;
  }

  lemma ConsDecodes(codec: Codec, image: seq<byte>, metas: seq<ChunkMeta>, pos: nat, first: seq<byte>, plain: seq<byte>)
    requires metas != [] && pos + metas[0].compSize <= |image|
    requires DecodeChunk(codec, image, ChunkEntry(metas[0], pos, pos + metas[0].compSize)) == Ok(first)
    requires Decodes(codec, image, metas[1..], pos + metas[0].compSize, plain)
    ensures Decodes(codec, image, metas, pos, first + plain)
  {
    hide DecodeChunk;
    var es, rest := Placed(metas, pos), Placed(metas[1..], pos + metas[0].compSize);
    FirstMeta(metas, pos);
    assert es[1..] == rest;
    forall e | e in es ensures InFile(e, |image|) {
      assert e == es[0] || e in rest;
    }
    assert DecodeAll(codec, image, es)[1..] == DecodeAll(codec, image, rest);
  }

  /** Decoding the placed payloads one after the other gathers the chunks. */
  lemma {:induction false} PayloadsDecode(codec: Codec, image: seq<byte>, data: seq<byte>, chunks: seq<Chunk>, arch: Option<Arch>, level: nat,
                                          rs: seq<ChunkResult>, pos: nat)
    requires SectionsFit(chunks, |data|) && |data| <= MAX_OUTPUT && BestChunks(codec, data, chunks, arch, level) == Ok(rs)
    requires pos <= |image| && image[pos..] == PayloadsOf(rs)
    ensures Decodes(codec, image, MetasOf(rs), pos, Gather(data, chunks))
  {
    hide Decodes, CompressChunkBest, DecompressBuf, UndoPreproc, DecodeChunk;
    if chunks == [] {
      NothingDecodes(codec, image, pos);
    } else {
      FirstChunk(codec, data, chunks, arch, level, rs);
      var r := rs[0];
      var next := pos + |r.compressed|;
      assert image[pos..][..|r.compressed|] == r.compressed;
      assert image[pos..next] == image[pos..][..|r.compressed|];
      assert image[next..] == image[pos..][|r.compressed|..] == PayloadsOf(rs[1..]);
      PayloadDecodes(codec, image, r, pos, Slice(data, chunks[0]));
      PayloadsDecode(codec, image, data, chunks[1..], arch, level, rs[1..], next);
      assert MetasOf(rs)[1..] == MetasOf(rs[1..]);
      ConsDecodes(codec, image, MetasOf(rs), pos, Slice(data, chunks[0]), Gather(data, chunks[1..]));
    }
  }

  /** The multi-block image decodes to the chunks joined if their sizes add up to the file's, and is refused otherwise. */
  lemma MultiRoundTrip(codec: Codec, data: seq<byte>, chunks: seq<Chunk>, arch: Option<Arch>, level: nat)
    requires SectionsFit(chunks, |data|) && |data| <= MAX_OUTPUT && 2 <= |chunks| <= MAX_CHUNKS
    requires BestChunks(codec, data, chunks, arch, level).Ok?
    ensures DecompressBytes(codec, MultiImage(|data|, BestChunks(codec, data, chunks, arch, level).value))
            == if SumSizes(chunks) == |data| then Ok(Gather(data, chunks)) else Err(BadArchive)
  {
    hide ParseHeader, Table, BestChunks, Sequential, ToLE;
    var rs := BestChunks(codec, data, chunks, arch, level).value;
    var metas, payloads := MetasOf(rs), PayloadsOf(rs);
    var image := MultiImage(|data|, rs);
    MetasAddUp(codec, data, chunks, arch, level, rs);
    HeaderRoundTrip(|data|, metas, payloads);
    var pos := Format.RecordBase(|metas|);
    assert image[pos..] == payloads;
    PayloadsDecode(codec, image, data, chunks, arch, level, rs, pos);
  }

  /** For an ELF file the multi-block image decodes to the file exactly when no two sections overlap. */
  lemma MultiBlockExact(codec: Codec, data: seq<byte>, level: nat)
    requires |data| <= MAX_OUTPUT && Parse(data).Some? && 2 <= |BuildChunks(data).chunks|
    requires BestChunks(codec, data, BuildChunks(data).chunks, BuildChunks(data).arch, level).Ok?
    ensures var l := BuildChunks(data);
            DecompressBytes(codec, MultiImage(|data|, BestChunks(codec, data, l.chunks, l.arch, level).value))
            == if SectionsApart(Parse(data).value.sections) then Ok(data) else Err(BadArchive)
  {
    hide DecompressBytes, BestChunks, BuildChunks, Parse;
    var l := BuildChunks(data);
    ChunkPartition(data, ArmBranch);
    MultiRoundTrip(codec, data, l.chunks, l.arch, level);
    if SectionsApart(Parse(data).value.sections) {
      GatherTiles(data, l.chunks, 0);
    }
  }

  // ---- End to end ----

  /** The encoder accepts up to 4 GiB, the decoder 2 GiB. */
  lemma BeyondCap(codec: Codec, size: nat, metas: seq<ChunkMeta>, payloads: seq<byte>)
    requires MAX_OUTPUT < size <= U32_MAX
    ensures DecompressBytes(codec, EncodeHeader(size, metas) + payloads) == Err(TooLarge)
  {
    hide ToLE, FromLE, Table;
    var data := EncodeHeader(size, metas) + payloads;
    assert data[0..8] == MAGIC && data[8..16] == ToLE(8, size);
    FromLEToLE(8, size);
    assert Pow256(8) == 0x1_0000_0000_0000_0000;
  }

  // ---- What was emitted, read off the image ----

  lemma SingleShape(size: nat, t: byte, payload: seq<byte>)
    requires size <= U32_MAX && |payload| <= U32_MAX
    ensures var image := SingleImage(size, t, payload);
            |image| >= Format.RecordBase(1) && ReadU32(image, 16) == 1 && ReadMeta(image, 0).preproc == t
  {
    hide EncodeHeader, ReadMeta, ReadU32;
    HeaderFields(size, [ChunkMeta(t, Low32(size), Low32(|payload|))], payload);
  }

  lemma MultiShape(codec: Codec, data: seq<byte>, chunks: seq<Chunk>, arch: Option<Arch>, level: nat)
    requires SectionsFit(chunks, |data|) && |data| <= U32_MAX && 1 < |chunks| <= MAX_CHUNKS
    requires BestChunks(codec, data, chunks, arch, level).Ok?
    ensures var image := MultiImage(|data|, BestChunks(codec, data, chunks, arch, level).value);
            |image| >= Format.RecordBase(1) && ReadU32(image, 16) > 1
  {
    hide EncodeHeader, BestChunks, ReadMeta, ReadU32;
    var rs := BestChunks(codec, data, chunks, arch, level).value;
    PayloadsBound(codec, data, chunks, arch, level, rs);
    HeaderFields(|data|, MetasOf(rs), PayloadsOf(rs));
  }

  /**
   * What decoding an image of the file gives, by what was emitted. The image itself says which it is: it
   * declares more than one chunk, or one chunk of some type.
   */
  ghost predicate Outcome(data: seq<byte>, image: seq<byte>, back: Result<seq<byte>>) {
    && |image| >= Format.RecordBase(1)
    && if |data| > MAX_OUTPUT then back == Err(TooLarge)
       else if ReadU32(image, 16) > 1 then
         Parse(data).Some? && back == if SectionsApart(Parse(data).value.sections) then Ok(data) else Err(BadArchive)
       else ModeOutcome(data, ReadMeta(image, 0).preproc, back)
  }

  /** Several chunks only above level 0 and for several sections; one chunk of a type that was tried. */
  ghost predicate Emitted(image: seq<byte>, arch: Option<Arch>, level: nat, nChunks: nat) {
    && |image| >= Format.RecordBase(1)
    && (ReadU32(image, 16) > 1 ==> level > 0 && nChunks > 1)
    && (ReadU32(image, 16) <= 1 ==> ReadMeta(image, 0).preproc in ModeTypes(arch, level, nChunks))
  }

  lemma SingleComesBack(codec: Codec, data: seq<byte>, chunks: seq<Chunk>, arch: Option<Arch>, level: nat, combos: seq<Combo>)
    requires |data| <= U32_MAX && Describes(data, chunks, arch) && SectionsFit(chunks, |data|)
    requires Winner(PassOutcomes(codec, data, chunks, arch, level, combos)).Some?
    ensures var w := Winner(PassOutcomes(codec, data, chunks, arch, level, combos)).value;
            var image := SingleImage(|data|, Cyclic(ModeTypes(arch, level, |chunks|), w.pass), w.payload);
            Outcome(data, image, DecompressBytes(codec, image)) && Emitted(image, arch, level, |chunks|)
  {
    hide DecompressBytes, ModeBuffer, ModeTypes, BestOfFirst, DecompressBuf, UndoPreproc, Describes, ModeOutcome, ReadU32, ReadMeta,
         PassOutcomes;
    var w := Winner(PassOutcomes(codec, data, chunks, arch, level, combos)).value;
    var types := ModeTypes(arch, level, |chunks|);
    var t := Cyclic(types, w.pass);
    assert t in types;
    WinnerIsPayload(codec, data, chunks, arch, level, combos);
    SingleShape(|data|, t, w.payload);
    if |data| <= MAX_OUTPUT {
      hide SingleImage;
      ModesUndone(data, chunks, arch, level, t);
      SingleRoundTrip(codec, data, t, w.payload, ModeBuffer(data, chunks, arch, t));
    } else {
      BeyondCap(codec, |data|, [ChunkMeta(t, Low32(|data|), Low32(|w.payload|))], w.payload);
    }
  }

  lemma MultiComesBack(codec: Codec, data: seq<byte>, chunks: seq<Chunk>, arch: Option<Arch>, level: nat)
    requires |data| <= U32_MAX && Describes(data, chunks, arch) && SectionsFit(chunks, |data|) && |chunks| > 1 && level > 0
    requires BestChunks(codec, data, chunks, arch, level).Ok?
    ensures var image := MultiImage(|data|, BestChunks(codec, data, chunks, arch, level).value);
            Outcome(data, image, DecompressBytes(codec, image)) && Emitted(image, arch, level, |chunks|)
  {
    hide DecompressBytes, BestChunks, Describes, EncodeHeader, Parse, BuildChunks, ReadU32, ReadMeta, ModeTypes, SectionsApart;
    var rs := BestChunks(codec, data, chunks, arch, level).value;
    DescribedFits(data, chunks, arch);
    MultiShape(codec, data, chunks, arch, level);
    if |data| <= MAX_OUTPUT {
      MultiBlockExact(codec, data, level);
    } else {
      BeyondCap(codec, |data|, MetasOf(rs), PayloadsOf(rs));
    }
  }

  /** Any successful image of any file, at every level, for every combination list and every schedule. */
  lemma CompressRoundTrip(codec: Codec, data: seq<byte>, chunks: seq<Chunk>, arch: Option<Arch>, level: nat, combos: seq<Combo>)
    requires Describes(data, chunks, arch)
    ensures SectionsFit(chunks, |data|)
    ensures var r := CompressImage(codec, data, chunks, arch, level, combos);
            r.Ok? ==> Outcome(data, r.value, DecompressBytes(codec, r.value)) && Emitted(r.value, arch, level, |chunks|)
  {
    hide DecompressBytes, BestChunks, ModeTypes, BestOfFirst, SingleImage, MultiImage, Describes, PassOutcomes, SingleTotal,
         MultiTotal, Outcome, Emitted;
    DescribedFits(data, chunks, arch);
    if CompressImage(codec, data, chunks, arch, level, combos).Ok? {
      var multi := MultiBlock(codec, data, chunks, arch, level).value;
      var w := Winner(PassOutcomes(codec, data, chunks, arch, level, combos)).value;
      if multi.None? || SingleTotal(w.payload) < MultiTotal(multi.value) {
        SingleComesBack(codec, data, chunks, arch, level, combos);
      } else {
        MultiComesBack(codec, data, chunks, arch, level);
      }
    }
  }

  /** `compress_file`, for any file: split along the sections, then compress. */
  lemma FileRoundTrip(codec: Codec, data: seq<byte>, level: nat, combos: seq<Combo>)
    ensures var l := BuildChunks(data);
            var r := CompressImage(codec, data, l.chunks, l.arch, level, combos);
            r.Ok? ==> Outcome(data, r.value, DecompressBytes(codec, r.value)) && Emitted(r.value, l.arch, level, |l.chunks|)
  {
    hide CompressImage, DecompressBytes, Outcome, Emitted;
    var l := BuildChunks(data);
    CompressRoundTrip(codec, data, l.chunks, l.arch, level, combos);
  }

  // ---- The files that always come back ----

  /** What decoding must give: the input, up to the decoder's cap. */
  function UpToCap(data: seq<byte>): Result<seq<byte>> {
    if |data| <= MAX_OUTPUT then Ok(data) else Err(TooLarge)
  }

  lemma ConformantOutcome(data: seq<byte>, image: seq<byte>, back: Result<seq<byte>>)
    requires Conformant(data) && Outcome(data, image, back)
    ensures back == UpToCap(data)
  {
    hide ReadU32, ReadMeta, SectionsApart, CodeClear, SectionsOrderFree, ParsesAlike;
    if Parse(data).Some? {
      var info := Parse(data).value;
      var t := ReadMeta(image, 0).preproc;
      ParseBounds(data);
      ClearParsesAlike(data, t == 4);
      ApartIsOrderFree(data, info.sections, SectionTransform(info.arch, t == 4));
    }
  }

  /** A file as the System V ABI asks comes back at every level, whatever won. */
  lemma ConformantRoundTrip(codec: Codec, data: seq<byte>, level: nat, combos: seq<Combo>)
    requires Conformant(data)
    ensures var l := BuildChunks(data);
            var r := CompressImage(codec, data, l.chunks, l.arch, level, combos);
            r.Ok? ==> DecompressBytes(codec, r.value) == UpToCap(data)
  {
    hide CompressImage, DecompressBytes, Outcome, Emitted, UpToCap, Conformant;
    var l := BuildChunks(data);
    FileRoundTrip(codec, data, level, combos);
    var r := CompressImage(codec, data, l.chunks, l.arch, level, combos);
    if r.Ok? {
      ConformantOutcome(data, r.value, DecompressBytes(codec, r.value));
    }
  }

  /** At level 0 every file comes back, overlapping sections or not. */
  lemma LevelZeroRoundTrip(codec: Codec, data: seq<byte>, combos: seq<Combo>)
    ensures var l := BuildChunks(data);
            var r := CompressImage(codec, data, l.chunks, l.arch, 0, combos);
            r.Ok? ==> DecompressBytes(codec, r.value) == UpToCap(data)
  {
    hide CompressImage, DecompressBytes, ReadU32, ReadMeta;
    var l := BuildChunks(data);
    FileRoundTrip(codec, data, 0, combos);
    assert ModeTypes(l.arch, 0, |l.chunks|) == [0];
  }

  /** The solid blob of a container: one plain chunk, whatever its bytes look like. */
  lemma OpaqueRoundTrip(codec: Codec, data: seq<byte>, level: nat, combos: seq<Combo>)
    ensures var chunks := WholeFile(|data|);
            && SectionsFit(chunks, |data|)
            && var r := CompressImage(codec, data, chunks, None, level, combos);
               r.Ok? ==> DecompressBytes(codec, r.value) == UpToCap(data)
  {
    hide CompressImage, DecompressBytes, ReadU32, ReadMeta;
    CompressRoundTrip(codec, data, WholeFile(|data|), None, level, combos);
    assert forall t :: t in ModeTypes(None, level, 1) ==> !IsCodeType(t);
  }

  // ---- How long an image can be ----

  lemma {:induction false} PayloadsBound(codec: Codec, data: seq<byte>, chunks: seq<Chunk>, arch: Option<Arch>, level: nat, rs: seq<ChunkResult>)
    requires SectionsFit(chunks, |data|) && BestChunks(codec, data, chunks, arch, level) == Ok(rs)
    ensures |rs| == |chunks| && |PayloadsOf(rs)| <= |chunks| * U32_MAX
  {
    hide Candidates, CompressBuf, BestOfFirst;
    if chunks != [] {
      var c := chunks[0];
      assert c in chunks;
      var cs := Candidates(Slice(data, c), c.isCode, arch, level);
      var p := ChunkFromCandidate(codec, Slice(data, c), c.isCode, arch, level);
      PayloadRoundTrip(codec, cs[p].input, cs[p].combo, level);
      assert rs[1..] == BestChunks(codec, data, chunks[1..], arch, level).value;
      PayloadsBound(codec, data, chunks[1..], arch, level, rs[1..]);
    }
  }

  lemma ChunkFromCandidate(codec: Codec, data: seq<byte>, isCode: bool, arch: Option<Arch>, level: nat) returns (p: nat)
    requires CompressChunkBest(codec, data, isCode, arch, level).Ok?
    ensures var cs := Candidates(data, isCode, arch, level);
            var r := CompressChunkBest(codec, data, isCode, arch, level).value;
            p < |cs| && CompressBuf(codec, cs[p].input, cs[p].combo, level) == Ok(r.compressed)
  {
    hide Candidates, CompressBuf;
    ChunkIsEarliestShortest(codec, data, isCode, arch, level);
    var cs := Candidates(data, isCode, arch, level);
    var r := CompressChunkBest(codec, data, isCode, arch, level).value;
    p :| 0 <= p < |cs| && CompressBuf(codec, cs[p].input, cs[p].combo, level) == Ok(r.compressed);
  }

  /** Every image of a described file is short enough for the 64-bit length field of a container. */
  lemma ImageFits(codec: Codec, data: seq<byte>, chunks: seq<Chunk>, arch: Option<Arch>, level: nat, combos: seq<Combo>)
    requires SectionsFit(chunks, |data|) && |chunks| <= MAX_CHUNKS && CompressImage(codec, data, chunks, arch, level, combos).Ok?
    ensures |CompressImage(codec, data, chunks, arch, level, combos).value| <= U64_MAX
  {
    hide PassOutcomes, BestOfFirst, EncodeHeader, ModeTypes, PayloadsOf, MetasOf, BestChunks;
    ImageLength(codec, data, chunks, arch, level, combos);
    WinnerIsPayload(codec, data, chunks, arch, level, combos);
    var multi := MultiBlock(codec, data, chunks, arch, level).value;
    if multi.Some? {
      PayloadsBound(codec, data, chunks, arch, level, multi.value);
      assert |chunks| * U32_MAX <= MAX_CHUNKS * U32_MAX;
    }
  }
}

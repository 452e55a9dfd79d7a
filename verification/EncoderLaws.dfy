/** When the UCOMP01 encoder succeeds, and how short its image is: src/lzma.rs, src/chunk.rs and src/compress.rs. */
module EncoderLaws {
  import opened Bytes
  import opened Normalize
  import opened Elf
  import opened Transforms
  import opened CodeSections
  import opened Lzma
  import opened Format
  import opened Selection
  import opened Chunking
  import opened ChunkSearch
  import opened Compress
  import opened Ucomp01
  import Decompress
  import Delta

  // ---- One payload ----

  predicate ValidCombo(c: Combo) {
    c.lc <= 8 && c.lp <= 4 && c.pb <= 4 && c.lc + c.lp <= 4
  }

  /** The dictionary by level and size: the least LZMA2 size that covers the input, between 4 KiB and the level's cap. */
  lemma DictionaryByLevel(size: nat, level: nat)
    ensures var mib := 1024 * 1024;
            var cap := if level == 0 then 16 * mib else if level == 1 then 32 * mib else if level == 2 then 64 * mib else 128 * mib;
            var t := if size < 4096 then 4096 else if size > cap then cap else size;
            var d := OptimalDictSize(size, level);
            && t <= d && (t > 4096 ==> 2 * d < 3 * t)
            && (forall p: byte :: p < 40 && (2 + p % 2) * Pow2(p / 2 + 11) >= t ==> (2 + p % 2) * Pow2(p / 2 + 11) >= d)
  {
    hide DecodeProps, DictPropsByte, Pow2;
    var t, d := DictTarget(size, level), OptimalDictSize(size, level);
    OptimalDictSizeBounds(size, level);
    DictPropsByteLeast(t);
    TargetFits(size, level);
    forall p: byte | p < 40 && (2 + p % 2) * Pow2(p / 2 + 11) >= t ensures (2 + p % 2) * Pow2(p / 2 + 11) >= d {
      PropsFit(p);
      var q := DictPropsByte(t);
      if q < p {
        PropsMonotonic(q, p);
      }
    }
  }

  /** A payload is the props byte of the dictionary, then what the codec makes of the input at the level's depth. */
  lemma PayloadLayout(codec: Codec, input: seq<byte>, c: Combo, level: nat)
    ensures var d := OptimalDictSize(|input|, level);
            var depth := if level == 0 then 32 else if level == 1 then 128 else if level == 2 then 2048 else 500_000;
            var stream := codec.encode(input, d, c.lc, c.lp, c.pb, depth);
            var r := CompressBuf(codec, input, c, level);
            && (r.Ok? <==> ValidCombo(c) && stream.Some?) && (r.Err? ==> r.error == Error.Lzma)
            && (r.Ok? ==> |r.value| > 0 && DictSizeFromProps(r.value[0]) == Some(d) && r.value[1..] == stream.value)
  {
    OptimalDictSizeBounds(|input|, level);
  }

  /** The codec encodes every input of up to `size` bytes. */
  ghost predicate EncodesUpTo(codec: Codec, size: nat) {
    forall x, dict, lc, lp, pb, depth ::
      |x| <= size && lc <= 8 && lp <= 4 && pb <= 4 && lc + lp <= 4 ==> codec.encode(x, dict, lc, lp, pb, depth).Some?
  }

  lemma StoringEncodes(size: nat)
    requires size < U32_MAX
    ensures EncodesUpTo(StoredCodec(), size)
  {
  }

  lemma BufSucceeds(codec: Codec, input: seq<byte>, c: Combo, level: nat, size: nat)
    requires EncodesUpTo(codec, size) && |input| <= size && ValidCombo(c)
    ensures CompressBuf(codec, input, c, level).Ok?
  {
  }

  // ---- Success ----

  lemma CandidatesAreValid(data: seq<byte>, isCode: bool, arch: Option<Arch>, level: nat, i: nat)
    requires i < |Candidates(data, isCode, arch, level)|
    ensures var c := Candidates(data, isCode, arch, level)[i]; ValidCombo(c.combo) && |c.input| == |data|
  {
    hide Apply, Delta.Differences;
  }

  lemma ChunkSucceeds(codec: Codec, data: seq<byte>, isCode: bool, arch: Option<Arch>, level: nat, size: nat)
    requires EncodesUpTo(codec, size) && |data| <= size
    ensures CompressChunkBest(codec, data, isCode, arch, level).Ok?
  {
    hide Candidates, CompressBuf, EncodesUpTo, BestOfFirst;
    var cs := Candidates(data, isCode, arch, level);
    var os := OutcomesOf(codec, cs, level);
    forall o | o in os ensures o.Some? {
      var i :| 0 <= i < |os| && os[i] == o;
      CandidatesAreValid(data, isCode, arch, level, i);
      BufSucceeds(codec, cs[i].input, cs[i].combo, level, size);
    }
    WinnerIsEarliestShortest(os);
    assert os[0] in os;
  }

  lemma {:induction false} ChunksSucceed(codec: Codec, data: seq<byte>, chunks: seq<Chunk>, arch: Option<Arch>, level: nat)
    requires SectionsFit(chunks, |data|) && EncodesUpTo(codec, |data|)
    ensures BestChunks(codec, data, chunks, arch, level).Ok?
  {
    hide CompressChunkBest, EncodesUpTo;
    if chunks != [] {
      assert chunks[0] in chunks;
      ChunkSucceeds(codec, Slice(data, chunks[0]), chunks[0].isCode, arch, level, |data|);
      ChunksSucceed(codec, data, chunks[1..], arch, level);
    }
  }

  lemma {:induction false} ChunksFailWithLzma(codec: Codec, data: seq<byte>, chunks: seq<Chunk>, arch: Option<Arch>, level: nat)
    requires SectionsFit(chunks, |data|)
    ensures var r := BestChunks(codec, data, chunks, arch, level); r.Err? ==> r.error == Error.Lzma
  {
    hide Candidates, CompressBuf, BestOfFirst;
    if chunks != [] {
      assert chunks[0] in chunks;
      ChunksFailWithLzma(codec, data, chunks[1..], arch, level);
    }
  }

  lemma ModeIndex(m: nat, modes: nat, c: nat)
    requires m < modes
    ensures (c * modes + m) / modes == c && (c * modes + m) % modes == m
  {
    ModUnique(c * modes + m, modes, c, m);
  }

  /** Combination `c` on variant `m` is a pass. */
  lemma PassOf(codec: Codec, data: seq<byte>, chunks: seq<Chunk>, arch: Option<Arch>, level: nat, combos: seq<Combo>, m: nat, c: nat)
    requires SectionsFit(chunks, |data|) && m < |ModeTypes(arch, level, |chunks|)| && c < |combos|
    ensures var types := ModeTypes(arch, level, |chunks|);
            var os := PassOutcomes(codec, data, chunks, arch, level, combos);
            var p := c * |types| + m;
            p < |os| && os[p] == ToOption(CompressBuf(codec, ModeBuffer(data, chunks, arch, types[m]), combos[c], level))
  {
    hide ModeTypes, ModeBuffer, CompressBuf;
    var types := ModeTypes(arch, level, |chunks|);
    ModeIndex(m, |types|, c);
    MulMonotonic(|types|, c + 1, |combos|);
    assert (c + 1) * |types| == c * |types| + |types|;
  }

  /** The encoder succeeds at every level, whatever the file, if the codec does and one combination is valid. */
  lemma CompressSucceeds(codec: Codec, data: seq<byte>, chunks: seq<Chunk>, arch: Option<Arch>, level: nat, combos: seq<Combo>)
    requires SectionsFit(chunks, |data|) && |data| <= U32_MAX
    requires EncodesUpTo(codec, |data|) && HasValidCombo(combos)
    ensures CompressImage(codec, data, chunks, arch, level, combos).Ok?
  {
    hide ModeTypes, ModeBuffer, CompressBuf, PassOutcomes, BestOfFirst, BestChunks, SingleImage, MultiImage, EncodesUpTo;
    ChunksSucceed(codec, data, chunks, arch, level);
    var combo :| combo in combos && ValidCombo(combo);
    var c :| 0 <= c < |combos| && combos[c] == combo;
    var types := ModeTypes(arch, level, |chunks|);
    PassOf(codec, data, chunks, arch, level, combos, 0, c);
    BufSucceeds(codec, ModeBuffer(data, chunks, arch, types[0]), combo, level, |data|);
    WinnerIsEarliestShortest(PassOutcomes(codec, data, chunks, arch, level, combos));
  }

  /** The size is refused exactly beyond 4 GiB less one; every other failure is the codec's. */
  lemma TooLargeExact(codec: Codec, data: seq<byte>, chunks: seq<Chunk>, arch: Option<Arch>, level: nat, combos: seq<Combo>)
    requires SectionsFit(chunks, |data|)
    ensures var r := CompressImage(codec, data, chunks, arch, level, combos);
            (r == Err(TooLarge) <==> |data| > 0xFFFF_FFFF) && (r.Err? && r.error != TooLarge ==> r.error == Error.Lzma)
  {
    hide PassOutcomes, BestOfFirst, BestChunks, SingleImage, MultiImage, ModeTypes;
    ChunksFailWithLzma(codec, data, chunks, arch, level);
  }

  predicate HasValidCombo(combos: seq<Combo>) {
    exists c :: c in combos && ValidCombo(c)
  }

  /** For every file between the two caps, at every level, the encoder writes an image and the decoder refuses it. */
  lemma WrittenThenRefused(codec: Codec, data: seq<byte>, level: nat, combos: seq<Combo>)
    requires MAX_OUTPUT < |data| <= U32_MAX && EncodesUpTo(codec, |data|) && HasValidCombo(combos)
    ensures var l := BuildChunks(data);
            var r := CompressImage(codec, data, l.chunks, l.arch, level, combos);
            r.Ok? && Decompress.DecompressBytes(codec, r.value) == Err(TooLarge)
  {
    hide CompressImage, Decompress.DecompressBytes, EncodesUpTo, Emitted, ReadU32, ReadMeta;
    var l := BuildChunks(data);
    CompressSucceeds(codec, data, l.chunks, l.arch, level, combos);
    FileRoundTrip(codec, data, level, combos);
  }

  // ---- Optimality ----

  /** `r` is no longer than the payload `p`, which was made. */
  predicate NoLonger(r: ChunkResult, p: Result<seq<byte>>) {
    p.Ok? && |r.compressed| <= |p.value|
  }

  /**
   * The chunk is as short as each way of preprocessing it that the level allows, and is one of them:
   * raw under two combinations, ARM64 code in planes, a delta.
   */
  lemma ChunkBeatsEach(codec: Codec, data: seq<byte>, isCode: bool, arch: Option<Arch>, level: nat)
    requires CompressChunkBest(codec, data, isCode, arch, level).Ok?
    ensures var r := CompressChunkBest(codec, data, isCode, arch, level).value;
            var raw := CompressBuf(codec, data, Combo(3, 0, 2), level);
            var aligned := CompressBuf(codec, data, Combo(2, 2, 2), level);
            var planed := CompressBuf(codec, Apply(ArmPlaned, data, Encode), Combo(0, 0, 0), level);
            var delta := CompressBuf(codec, Delta.Differences(0, data), Combo(0, 0, 0), level);
            var planes := level >= 1 && isCode && arch == Some(Arm64) && |data| >= 16;
            && NoLonger(r, raw) && (level >= 1 ==> NoLonger(r, aligned)) && (planes ==> NoLonger(r, planed))
            && (level >= 1 && |data| >= 4 ==> NoLonger(r, delta))
            && (|| (r.preproc == 0 && (raw == Ok(r.compressed) || (level >= 1 && aligned == Ok(r.compressed))))
                || (r.preproc == 1 && planes && planed == Ok(r.compressed))
                || (r.preproc == 2 && level >= 1 && |data| >= 4 && delta == Ok(r.compressed)))
  {
    hide CompressBuf, CompressChunkBest, Apply, Delta.Differences;
    KeptBeats(codec, data, isCode, arch, level, Candidate(0, data, Combo(3, 0, 2)));
    if level >= 1 {
      KeptBeats(codec, data, isCode, arch, level, Candidate(0, data, Combo(2, 2, 2)));
      if isCode && arch == Some(Arm64) && |data| >= 16 {
        KeptBeats(codec, data, isCode, arch, level, Candidate(1, Apply(ArmPlaned, data, Encode), Combo(0, 0, 0)));
      }
      if |data| >= 4 {
        KeptBeats(codec, data, isCode, arch, level, Candidate(2, Delta.Differences(0, data), Combo(0, 0, 0)));
      }
    }
    var c := KeptCandidate(codec, data, isCode, arch, level);
  }

  lemma KeptBeats(codec: Codec, data: seq<byte>, isCode: bool, arch: Option<Arch>, level: nat, c: Candidate)
    requires CompressChunkBest(codec, data, isCode, arch, level).Ok? && IsCandidate(c, data, isCode, arch, level)
    ensures NoLonger(CompressChunkBest(codec, data, isCode, arch, level).value, CompressBuf(codec, c.input, c.combo, level))
  {
    hide CompressBuf, CompressChunkBest, Candidates, IsCandidate;
    ChunkIsEarliestShortest(codec, data, isCode, arch, level);
    CandidatesExact(data, isCode, arch, level, c);
  }

  lemma KeptCandidate(codec: Codec, data: seq<byte>, isCode: bool, arch: Option<Arch>, level: nat) returns (c: Candidate)
    requires CompressChunkBest(codec, data, isCode, arch, level).Ok?
    ensures IsCandidate(c, data, isCode, arch, level)
    ensures var r := CompressChunkBest(codec, data, isCode, arch, level).value;
            r.preproc == c.preproc && CompressBuf(codec, c.input, c.combo, level) == Ok(r.compressed)
  {
    hide CompressBuf, CompressChunkBest, Candidates, IsCandidate;
    ChunkIsEarliestShortest(codec, data, isCode, arch, level);
    var r, cs := CompressChunkBest(codec, data, isCode, arch, level).value, Candidates(data, isCode, arch, level);
    c :| c in cs && r.preproc == c.preproc && CompressBuf(codec, c.input, c.combo, level) == Ok(r.compressed);
    CandidatesExact(data, isCode, arch, level, c);
  }

  predicate IsCandidate(c: Candidate, data: seq<byte>, isCode: bool, arch: Option<Arch>, level: nat) {
    || c == Candidate(0, data, Combo(3, 0, 2))
    || (level >= 1 && c == Candidate(0, data, Combo(2, 2, 2)))
    || (level >= 1 && isCode && arch == Some(Arm64) && |data| >= 16
        && c == Candidate(1, Apply(ArmPlaned, data, Encode), Combo(0, 0, 0)))
    || (level >= 1 && |data| >= 4 && c == Candidate(2, Delta.Differences(0, data), Combo(0, 0, 0)))
  }

  lemma CandidatesExact(data: seq<byte>, isCode: bool, arch: Option<Arch>, level: nat, c: Candidate)
    ensures c in Candidates(data, isCode, arch, level) <==> IsCandidate(c, data, isCode, arch, level)
  {
    hide Apply, Delta.Differences;
  }

  /** The image is as short as every combination makes of every variant, and as the chunks apart. */
  lemma ImageBeatsEach(codec: Codec, data: seq<byte>, chunks: seq<Chunk>, arch: Option<Arch>, level: nat, combos: seq<Combo>,
                       t: byte, combo: Combo)
    requires SectionsFit(chunks, |data|) && CompressImage(codec, data, chunks, arch, level, combos).Ok?
    ensures var image := CompressImage(codec, data, chunks, arch, level, combos).value;
            var payload := CompressBuf(codec, ModeBuffer(data, chunks, arch, t), combo, level);
            && (t in ModeTypes(arch, level, |chunks|) && combo in combos && payload.Ok? ==> |image| <= 29 + |payload.value|)
            && (level > 0 && |chunks| > 1 ==>
                  var rs := BestChunks(codec, data, chunks, arch, level);
                  rs.Ok? && |image| <= 20 + 9 * |rs.value| + |PayloadsOf(rs.value)|)
  {
    hide ModeTypes, ModeBuffer, CompressBuf, PassOutcomes, BestOfFirst, BestChunks, PayloadsOf, MetasOf, EncodeHeader;
    ImageLength(codec, data, chunks, arch, level, combos);
    var types := ModeTypes(arch, level, |chunks|);
    WinnerIsEarliestShortest(PassOutcomes(codec, data, chunks, arch, level, combos));
    if t in types && combo in combos {
      var m :| 0 <= m < |types| && types[m] == t;
      var c :| 0 <= c < |combos| && combos[c] == combo;
      PassOf(codec, data, chunks, arch, level, combos, m, c);
    }
  }

  /** Several chunks are emitted exactly when they were compressed and are no longer than the single blob. */
  lemma LayoutChosen(codec: Codec, data: seq<byte>, chunks: seq<Chunk>, arch: Option<Arch>, level: nat, combos: seq<Combo>)
    requires Describes(data, chunks, arch) && SectionsFit(chunks, |data|)
    requires CompressImage(codec, data, chunks, arch, level, combos).Ok?
    ensures var image := CompressImage(codec, data, chunks, arch, level, combos).value;
            var w := Winner(PassOutcomes(codec, data, chunks, arch, level, combos));
            var rs := BestChunks(codec, data, chunks, arch, level);
            && |image| >= Format.RecordBase(1) && w.Some?
            && (ReadU32(image, 16) > 1 <==>
                  level > 0 && |chunks| > 1 && rs.Ok? && 20 + 9 * |rs.value| + |PayloadsOf(rs.value)| <= 29 + |w.value.payload|)
  {
    hide ModeTypes, PassOutcomes, BestOfFirst, BestChunks, PayloadsOf, ReadU32, ReadMeta, SingleImage, MultiImage, Describes;
    DescribedFits(data, chunks, arch);
    WinnerIsPayload(codec, data, chunks, arch, level, combos);
    var multi := MultiBlock(codec, data, chunks, arch, level).value;
    var w := Winner(PassOutcomes(codec, data, chunks, arch, level, combos)).value;
    if multi.None? || SingleTotal(w.payload) < MultiTotal(multi.value) {
      SingleShape(|data|, Cyclic(ModeTypes(arch, level, |chunks|), w.pass), w.payload);
    } else {
      MultiShape(codec, data, chunks, arch, level);
    }
  }
}

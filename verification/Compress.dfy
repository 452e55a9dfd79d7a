/** The UCOMP01 encoder: src/compress.rs. */
module Compress {
  import opened Bytes
  import opened Normalize
  import opened Elf
  import opened Transforms
  import opened CodeSections
  import opened Lzma
  import opened Format
  import opened Selection
  import opened Decompress
  import opened Chunking
  import opened ChunkSearch
  import Delta

  // ---- Whole-file variants ----

  /** The preprocessing types tried on the whole file, in order; type 0 is always first. */
  function ModeTypes(arch: Option<Arch>, level: nat, nChunks: nat): (ts: seq<byte>)
    ensures |ts| > 0 && ts[0] == 0
  {
    [0]
    + (if arch.Some? && level >= 1 then [3] else [])
    + (if level >= 3 then
         (if arch == Some(Arm64) then [4] else []) + [5] + (if arch.Some? then [6] else [])
       else if level == 2 then
         (if arch == Some(Arm64) then [4] else []) + (if arch.None? then [5] else []) + (if arch == Some(X86) then [6] else [])
       else if level == 1 && nChunks == 1 then [5]
       else [])
  }

  /** The file under preprocessing type `t`. Code chunks are transformed where they lie. */
  function ModeBuffer(data: seq<byte>, chunks: seq<Chunk>, arch: Option<Arch>, t: byte): (b: seq<byte>)
    requires SectionsFit(chunks, |data|)
    ensures |b| == |data|
  {
    if t == 3 then BranchNormalized(data, chunks, arch)
    else if t == 4 then ApplySections(data, chunks, ArmPlaned, Encode)
    else if t == 5 then Delta.Differences(0, data)
    else if t == 6 then Delta.Differences(0, BranchNormalized(data, chunks, arch))
    else data
  }

  function BranchNormalized(data: seq<byte>, chunks: seq<Chunk>, arch: Option<Arch>): (b: seq<byte>)
    requires SectionsFit(chunks, |data|)
    ensures |b| == |data|
  {
    if arch.None? then data else ApplySections(data, chunks, SectionTransform(arch.value, false), Encode)
  }

  method Clone(data: seq<byte>) returns (a: array<byte>)
    ensures fresh(a) && a[..] == data
  {
    a := new byte[|data|](i requires 0 <= i < |data| => data[i]);
  }

  method DeltaOf(data: seq<byte>) returns (b: seq<byte>)
    ensures b == Delta.Differences(0, data)
  {
    var tmp := Clone(data);
    Delta.Encode(tmp, 0, |data|);
    WholeSplice(data, Delta.Differences(0, data));
    b := tmp[..];
  }

  /** Buffers and modes grow together: mode `k` is (k, type), buffer `k` the file under that type. */
  ghost predicate ModesMatch(data: seq<byte>, chunks: seq<Chunk>, arch: Option<Arch>, types: seq<byte>,
                             buffers: seq<seq<byte>>, modes: seq<(nat, byte)>)
    requires SectionsFit(chunks, |data|)
  {
    && |buffers| == |modes| == |types|
    && forall k :: 0 <= k < |types| ==> modes[k] == (k, types[k]) && buffers[k] == ModeBuffer(data, chunks, arch, types[k])
  }

  lemma PushMode(data: seq<byte>, chunks: seq<Chunk>, arch: Option<Arch>, types: seq<byte>,
                 buffers: seq<seq<byte>>, modes: seq<(nat, byte)>, t: byte)
    requires SectionsFit(chunks, |data|) && ModesMatch(data, chunks, arch, types, buffers, modes)
    ensures ModesMatch(data, chunks, arch, types + [t], buffers + [ModeBuffer(data, chunks, arch, t)], modes + [(|buffers|, t)])
  {
  }

  method BuildModes(data: seq<byte>, chunks: seq<Chunk>, arch: Option<Arch>, level: nat)
    returns (buffers: seq<seq<byte>>, modes: seq<(nat, byte)>)
    requires SectionsFit(chunks, |data|)
    ensures ModesMatch(data, chunks, arch, ModeTypes(arch, level, |chunks|), buffers, modes)
  {
    hide ApplySections, Delta.Differences, ModesMatch, ModeTypes;
    ModeTypesInTurn(arch, level, |chunks|);
    var isElf := arch.Some?;
    buffers, modes := [data], [(0, 0)];
    ghost var types: seq<byte> := [0];
    assert ModesMatch(data, chunks, arch, types, buffers, modes) by { FirstMode(data, chunks, arch); }

    var needAdv := isElf && arch == Some(Arm64) && level >= 2;
    var needTotalDelta := level >= 3 || (level >= 2 && !isElf) || (level == 1 && |chunks| == 1);
    var needNormTotalDelta := level >= 3 || (level >= 2 && isElf && arch == Some(X86));

    var totalDelta: Option<seq<byte>> := None;
    if needTotalDelta {
      var b := DeltaOf(data);
      totalDelta := Some(b);
    }
    var norm: Option<seq<byte>> := None;
    if isElf && level >= 1 {
      var tmp := Clone(data);
      TransformSections(tmp, chunks, SectionTransform(arch.value, false), Encode);
      norm := Some(tmp[..]);
    }
    var adv: Option<seq<byte>> := None;
    if needAdv {
      var tmp := Clone(data);
      TransformSections(tmp, chunks, ArmPlaned, Encode);
      adv := Some(tmp[..]);
    }
    var normTotalDelta: Option<seq<byte>> := None;
    if needNormTotalDelta && norm.Some? {
      var b := DeltaOf(norm.value);
      normTotalDelta := Some(b);
    }

    if norm.Some? {
      PushMode(data, chunks, arch, types, buffers, modes, 3);
      modes, buffers, types := modes + [(|buffers|, 3)], buffers + [norm.value], types + [3];
    }
    if level >= 2 && adv.Some? {
      PushMode(data, chunks, arch, types, buffers, modes, 4);
      modes, buffers, types := modes + [(|buffers|, 4)], buffers + [adv.value], types + [4];
    }
    if totalDelta.Some? && (level >= 3 || (level >= 2 && !isElf) || (level == 1 && |chunks| == 1)) {
      PushMode(data, chunks, arch, types, buffers, modes, 5);
      modes, buffers, types := modes + [(|buffers|, 5)], buffers + [totalDelta.value], types + [5];
    }
    if normTotalDelta.Some? && (level >= 3 || (level >= 2 && isElf && arch == Some(X86))) {
      PushMode(data, chunks, arch, types, buffers, modes, 6);
      modes, buffers, types := modes + [(|buffers|, 6)], buffers + [normTotalDelta.value], types + [6];
    }
  }

  /** The list by level is the list by flag. */
  lemma ModeTypesInTurn(arch: Option<Arch>, level: nat, nChunks: nat)
    ensures var t3: seq<byte> := if arch.Some? && level >= 1 then [0] + [3] else [0];
            var t4 := if arch == Some(Arm64) && level >= 2 then t3 + [4] else t3;
            var t5 := if level >= 3 || (level >= 2 && arch.None?) || (level == 1 && nChunks == 1) then t4 + [5] else t4;
            var t6 := if arch.Some? && (level >= 3 || (level >= 2 && arch == Some(X86))) then t5 + [6] else t5;
            ModeTypes(arch, level, nChunks) == t6
  {
  }

  lemma FirstMode(data: seq<byte>, chunks: seq<Chunk>, arch: Option<Arch>)
    requires SectionsFit(chunks, |data|)
    ensures ModesMatch(data, chunks, arch, [0], [data], [(0, 0)])
  {
  }

  // ---- The passes ----

  /** `xs[i % xs.len()]`. */
  function Cyclic<T>(xs: seq<T>, i: nat): T
    requires xs != []
  {
    xs[i % |xs|]
  }

  /** Pass `p` runs combination `p / modes` on mode `p % modes`. */
  function PassOutcome(codec: Codec, data: seq<byte>, chunks: seq<Chunk>, arch: Option<Arch>, level: nat,
                       combos: seq<Combo>, p: nat): Option<seq<byte>>
    requires SectionsFit(chunks, |data|)
  {
    var types := ModeTypes(arch, level, |chunks|);
    var c := p / |types|;
    if 0 <= c < |combos| then ToOption(CompressBuf(codec, ModeBuffer(data, chunks, arch, Cyclic(types, p)), combos[c], level)) else None
  }

  function PassOutcomes(codec: Codec, data: seq<byte>, chunks: seq<Chunk>, arch: Option<Arch>, level: nat,
                        combos: seq<Combo>): (os: Outcomes)
    requires SectionsFit(chunks, |data|)
    ensures |os| == |combos| * |ModeTypes(arch, level, |chunks|)|
    ensures forall p :: 0 <= p < |os| ==> os[p] == PassOutcome(codec, data, chunks, arch, level, combos, p)
  {
    seq(|combos| * |ModeTypes(arch, level, |chunks|)|, p requires 0 <= p =>
      PassOutcome(codec, data, chunks, arch, level, combos, p))
  }

  lemma PassInRange(p: nat, modes: nat, combos: nat)
    requires modes > 0 && p < combos * modes
    ensures p / modes < combos
  {
    var q := p / modes;
    assert p == q * modes + p % modes;
    if q >= combos {
      MulMonotonic(modes, combos, q);
    }
  }

  /** Passes finish in an arbitrary order, each updating the shared best under its lock. */
  method RunPasses(codec: Codec, data: seq<byte>, chunks: seq<Chunk>, arch: Option<Arch>, level: nat, combos: seq<Combo>,
                   buffers: seq<seq<byte>>, modes: seq<(nat, byte)>)
    returns (best: Option<Best>)
    requires SectionsFit(chunks, |data|)
    requires ModesMatch(data, chunks, arch, ModeTypes(arch, level, |chunks|), buffers, modes)
    ensures best == Winner(PassOutcomes(codec, data, chunks, arch, level, combos))
  {
    hide ModeBuffer, BestOfFirst, CompressBuf, ModeTypes;
    ghost var outcomes := PassOutcomes(codec, data, chunks, arch, level, combos);
    ghost var done: set<nat> := {};
    var total := |combos| * |modes|;
    var pending := Passes(total);
    best := None;
    while pending != {}
      invariant pending !! done && pending + done == Passes(total) && total == |outcomes|
      invariant IsBest(outcomes, done, best)
      decreases pending
    {
      var p :| p in pending;
      assert p in Passes(total);
      PassInRange(p, |modes|, |combos|);
      var combo := combos[p / |modes|];
      var (bufIdx, _) := modes[p % |modes|];
      var comp := CompressBuf(codec, buffers[bufIdx], combo, level);
      assert outcomes[p] == ToOption(comp);
      if comp.Ok? {
        ImproveKeepsBest(outcomes, done, best, p);
        best := Improve(best, p, comp.value);
      } else {
        FailureKeepsBest(outcomes, done, best, p);
      }
      pending, done := pending - {p}, done + {p};
    }
    assert done == Passes(total);
    BestIsWinner(outcomes, best);
  }

  // ---- The image ----

  /** `n as u32`. */
  function Low32(n: nat): u32 {
    n % 0x1_0000_0000
  }

  function MetaOf(r: ChunkResult): ChunkMeta {
    ChunkMeta(r.preproc, Low32(r.origSize), Low32(|r.compressed|))
  }

  function MetasOf(rs: seq<ChunkResult>): (ms: seq<ChunkMeta>)
    ensures |ms| == |rs|
  {
    if rs == [] then [] else [MetaOf(rs[0])] + MetasOf(rs[1..])
  }

  function PayloadsOf(rs: seq<ChunkResult>): seq<byte> {
    if rs == [] then [] else rs[0].compressed + PayloadsOf(rs[1..])
  }

  function MultiTotal(rs: seq<ChunkResult>): nat {
    8 + 8 + 4 + |rs| * (1 + 4 + 4) + |PayloadsOf(rs)|
  }

  function SingleTotal(payload: seq<byte>): nat {
    8 + 8 + 4 + 1 + 4 + 4 + |payload|
  }

  function SingleImage(size: nat, t: byte, payload: seq<byte>): seq<byte> {
    EncodeHeader(size, [ChunkMeta(t, Low32(size), Low32(|payload|))]) + payload
  }

  function MultiImage(size: nat, rs: seq<ChunkResult>): seq<byte> {
    EncodeHeader(size, MetasOf(rs)) + PayloadsOf(rs)
  }

  function Slice(data: seq<byte>, c: Chunk): seq<byte>
    requires c.End() <= |data|
  {
    data[c.offset..c.End()]
  }

  /** Every chunk at its best; the first failure fails the whole. */
  function BestChunks(codec: Codec, data: seq<byte>, chunks: seq<Chunk>, arch: Option<Arch>, level: nat): Result<seq<ChunkResult>>
    requires SectionsFit(chunks, |data|)
  {
    if chunks == [] then Ok([])
    else
      var r :- CompressChunkBest(codec, Slice(data, chunks[0]), chunks[0].isCode, arch, level);
      Prepend([r], BestChunks(codec, data, chunks[1..], arch, level))
  }

  /** The multi-block path runs at levels above 0 and for more than one chunk. */
  function MultiBlock(codec: Codec, data: seq<byte>, chunks: seq<Chunk>, arch: Option<Arch>, level: nat): Result<Option<seq<ChunkResult>>>
    requires SectionsFit(chunks, |data|)
  {
    if level > 0 && |chunks| > 1 then
      var rs :- BestChunks(codec, data, chunks, arch, level);
      Ok(Some(rs))
    else Ok(None)
  }

  function CompressImage(codec: Codec, data: seq<byte>, chunks: seq<Chunk>, arch: Option<Arch>, level: nat, combos: seq<Combo>): Result<seq<byte>>
    requires SectionsFit(chunks, |data|)
  {
    if |data| > U32_MAX then Err(TooLarge)
    else
      var multi :- MultiBlock(codec, data, chunks, arch, level);
      match Winner(PassOutcomes(codec, data, chunks, arch, level, combos))
      case None => Err(Error.Lzma)
      case Some(w) =>
        var types := ModeTypes(arch, level, |chunks|);
        if multi.None? || SingleTotal(w.payload) < MultiTotal(multi.value)
        then Ok(SingleImage(|data|, Cyclic(types, w.pass), w.payload))
        else Ok(MultiImage(|data|, multi.value))
  }

  method RunChunks(codec: Codec, data: seq<byte>, chunks: seq<Chunk>, arch: Option<Arch>, level: nat) returns (r: Result<seq<ChunkResult>>)
    requires SectionsFit(chunks, |data|)
    ensures r == BestChunks(codec, data, chunks, arch, level)
  {
    hide CompressChunkBest;
    var rs: seq<ChunkResult> := [];
    ghost var all := BestChunks(codec, data, chunks, arch, level);
    assert chunks[0..] == chunks;
    PrependNothing(all);
    for i := 0 to |chunks|
      invariant all == Prepend(rs, BestChunks(codec, data, chunks[i..], arch, level))
    {
      var c := chunks[i];
      assert chunks[i..][0] == c && chunks[i..][1..] == chunks[i + 1..] && c in chunks;
      var best :- CompressChunk(codec, data[c.offset..c.offset + c.size], c.isCode, arch, level);
      PrependAssociative(rs, [best], BestChunks(codec, data, chunks[i + 1..], arch, level));
      rs := rs + [best];
    }
    assert rs + [] == rs;
    return Ok(rs);
  }

  /** A payload of the winning pass is within its 32-bit length field. */
  lemma WinnerIsPayload(codec: Codec, data: seq<byte>, chunks: seq<Chunk>, arch: Option<Arch>, level: nat, combos: seq<Combo>)
    requires SectionsFit(chunks, |data|)
    ensures var w := Winner(PassOutcomes(codec, data, chunks, arch, level, combos));
            w.Some? ==>
              var types := ModeTypes(arch, level, |chunks|);
              var t := Cyclic(types, w.value.pass);
              var b := ModeBuffer(data, chunks, arch, t);
              && 1 <= |w.value.payload| <= U32_MAX
              && (|data| <= MAX_OUTPUT ==> DecompressBuf(codec, w.value.payload, |data|) == Ok(b))
  {
    hide ModeBuffer, BestOfFirst, CompressBuf, DecompressBuf, ModeTypes;
    var os := PassOutcomes(codec, data, chunks, arch, level, combos);
    WinnerIsEarliestShortest(os);
    if Winner(os).Some? {
      var p := Winner(os).value.pass;
      var types := ModeTypes(arch, level, |chunks|);
      PassInRange(p, |types|, |combos|);
      PayloadRoundTrip(codec, ModeBuffer(data, chunks, arch, Cyclic(types, p)), combos[p / |types|], level);
    }
  }

  /** The single-blob brute force: the best payload and its preprocessing type. */
  method SearchSingleBlob(codec: Codec, data: seq<byte>, chunks: seq<Chunk>, arch: Option<Arch>, level: nat, combos: seq<Combo>)
    returns (r: Option<(seq<byte>, byte)>)
    requires SectionsFit(chunks, |data|)
    ensures match Winner(PassOutcomes(codec, data, chunks, arch, level, combos))
            case None => r.None?
            case Some(w) => r == Some((w.payload, Cyclic(ModeTypes(arch, level, |chunks|), w.pass))) && 1 <= |w.payload| <= U32_MAX
  {
    hide PassOutcomes, BestOfFirst, ModeTypes, ModeBuffer, DecompressBuf;
    var buffers, modes := BuildModes(data, chunks, arch, level);
    var best := RunPasses(codec, data, chunks, arch, level, combos, buffers, modes);
    if best.None? {
      return None;
    }
    WinnerIsPayload(codec, data, chunks, arch, level, combos);
    var (_, bestType) := modes[best.value.pass % |modes|];
    return Some((best.value.payload, bestType));
  }

  method CompressData(codec: Codec, data: seq<byte>, chunks: seq<Chunk>, arch: Option<Arch>, level: nat, combos: seq<Combo>)
    returns (r: Result<seq<byte>>)
    requires SectionsFit(chunks, |data|)
    ensures r == CompressImage(codec, data, chunks, arch, level, combos)
  {
    if |data| > U32_MAX {
      return Err(TooLarge);
    }
    hide BestChunks, PassOutcomes, BestOfFirst, EncodeHeader, ModeTypes, MultiTotal, PayloadsOf, MetasOf;
    var multi: Option<seq<ChunkResult>> := None;
    var multiTotal: nat := U64_MAX;
    if level > 0 && |chunks| > 1 {
      var results :- RunChunks(codec, data, chunks, arch, level);
      multiTotal := MultiTotal(results);
      multi := Some(results);
    }
    var winner := SearchSingleBlob(codec, data, chunks, arch, level, combos);
    if winner.None? {
      return Err(Error.Lzma);
    }
    var (payload, bestType) := winner.value;
    if SingleTotal(payload) < multiTotal {
      var hdr := BuildHeader(|data|, [ChunkMeta(bestType, Low32(|data|), Low32(|payload|))]);
      return Ok(hdr[..] + payload);
    } else {
      // The `expect` on the multi-block results: without them the single blob has won.
      assert multi.Some?;
      var hdr := BuildHeader(|data|, MetasOf(multi.value));
      return Ok(hdr[..] + PayloadsOf(multi.value));
    }
  }

  /** The image is as long as the shorter layout was announced to be. */
  lemma ImageLength(codec: Codec, data: seq<byte>, chunks: seq<Chunk>, arch: Option<Arch>, level: nat, combos: seq<Combo>)
    requires SectionsFit(chunks, |data|) && CompressImage(codec, data, chunks, arch, level, combos).Ok?
    ensures var image := CompressImage(codec, data, chunks, arch, level, combos).value;
            var single := SingleTotal(Winner(PassOutcomes(codec, data, chunks, arch, level, combos)).value.payload);
            var multi := MultiBlock(codec, data, chunks, arch, level).value;
            |image| == if multi.Some? && MultiTotal(multi.value) <= single then MultiTotal(multi.value) else single
  {
  }
}

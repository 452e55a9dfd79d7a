/** Best-of preprocessing for one chunk: src/chunk.rs. */
module ChunkSearch {
  import opened Bytes
  import opened Normalize
  import opened Elf
  import opened Transforms
  import opened Lzma
  import opened Selection
  import opened Decompress
  import Delta

  datatype ChunkResult = ChunkResult(preproc: byte, compressed: seq<byte>, origSize: nat)

  datatype Candidate = Candidate(preproc: byte, input: seq<byte>, combo: Combo)

  const COMBO_RAW := Combo(3, 0, 2)
  const COMBO_ALIGNED := Combo(2, 2, 2)
  const COMBO_FILTERED := Combo(0, 0, 0)

  predicate TriesPlanes(data: seq<byte>, isCode: bool, arch: Option<Arch>) {
    isCode && arch == Some(Arm64) && |data| >= 16
  }

  /** Every candidate, in the order in which they are considered. */
  function Candidates(data: seq<byte>, isCode: bool, arch: Option<Arch>, level: nat): (cs: seq<Candidate>)
    ensures |cs| > 0
  {
    if level == 0 then [Candidate(0, data, COMBO_RAW)]
    else
      [Candidate(0, data, COMBO_RAW), Candidate(0, data, COMBO_ALIGNED)]
      + (if TriesPlanes(data, isCode, arch) then [Candidate(1, Apply(ArmPlaned, data, Encode), COMBO_FILTERED)] else [])
      + (if |data| >= 4 then [Candidate(2, Delta.Differences(0, data), COMBO_FILTERED)] else [])
  }

  function ToOption<T>(r: Result<T>): Option<T> {
    if r.Ok? then Some(r.value) else None
  }

  function OutcomesOf(codec: Codec, cs: seq<Candidate>, level: nat): (os: Outcomes)
    ensures |os| == |cs|
  {
    seq(|cs|, i requires 0 <= i < |cs| => ToOption(CompressBuf(codec, cs[i].input, cs[i].combo, level)))
  }

  predicate AllSucceed(os: Outcomes) {
    forall o :: o in os ==> o.Some?
  }

  /** Any failure fails the chunk; otherwise the winner is kept. */
  function CompressChunkBest(codec: Codec, data: seq<byte>, isCode: bool, arch: Option<Arch>, level: nat): Result<ChunkResult> {
    var cs := Candidates(data, isCode, arch, level);
    var os := OutcomesOf(codec, cs, level);
    if !AllSucceed(os) then Err(Error.Lzma)
    else
      WinnerIsEarliestShortest(os);
      var w := Winner(os);
      if w.None? then Err(Error.Lzma) else Ok(ChunkResult(cs[w.value.pass].preproc, w.value.payload, |data|))
  }

  // ---- The search as it runs ----

  datatype Kept = Kept(preproc: byte, compressed: seq<byte>)

  /** Strictly smaller replaces; a tie keeps the earlier candidate. */
  function Consider(best: Option<Kept>, preproc: byte, payload: seq<byte>): Option<Kept> {
    if best.None? || |payload| < |best.value.compressed| then Some(Kept(preproc, payload)) else best
  }

  ghost predicate Tracks(best: Option<Kept>, cs: seq<Candidate>, os: Outcomes, k: nat) {
    && k <= |os| == |cs|
    && match BestOfFirst(os, k)
       case None => best.None?
       case Some(b) => b.pass < k && b.size == |b.payload| && best == Some(Kept(cs[b.pass].preproc, b.payload))
  }

  lemma ConsiderTracks(best: Option<Kept>, cs: seq<Candidate>, os: Outcomes, k: nat)
    requires Tracks(best, cs, os, k) && k < |cs| && os[k].Some?
    ensures Tracks(Consider(best, cs[k].preproc, os[k].value), cs, os, k + 1)
  {
  }

  method TryCandidate(codec: Codec, ghost cs: seq<Candidate>, ghost k: nat, c: Candidate, level: nat, best: Option<Kept>)
    returns (r: Result<Option<Kept>>)
    requires k < |cs| && cs[k] == c && Tracks(best, cs, OutcomesOf(codec, cs, level), k)
    ensures r.Ok? ==> Tracks(r.value, cs, OutcomesOf(codec, cs, level), k + 1) && OutcomesOf(codec, cs, level)[k].Some?
    ensures r.Err? ==> r.error == Error.Lzma && !AllSucceed(OutcomesOf(codec, cs, level))
  {
    ghost var os := OutcomesOf(codec, cs, level);
    var comp := CompressBuf(codec, c.input, c.combo, level);
    assert os[k] == ToOption(comp) && os[k] in os;
    if comp.Err? {
      return Err(comp.error);
    }
    ConsiderTracks(best, cs, os, k);
    return Ok(Consider(best, c.preproc, comp.value));
  }

  lemma Finish(codec: Codec, data: seq<byte>, isCode: bool, arch: Option<Arch>, level: nat, best: Option<Kept>)
    requires var cs := Candidates(data, isCode, arch, level);
             var os := OutcomesOf(codec, cs, level);
             Tracks(best, cs, os, |cs|) && forall i :: 0 <= i < |os| ==> os[i].Some?
    ensures best.Some?
    ensures CompressChunkBest(codec, data, isCode, arch, level) == Ok(ChunkResult(best.value.preproc, best.value.compressed, |data|))
  {
    hide Candidates;
    var os := OutcomesOf(codec, Candidates(data, isCode, arch, level), level);
    WinnerIsEarliestShortest(os);
    assert os[0].Some?;
  }

  method CompressChunk(codec: Codec, data: seq<byte>, isCode: bool, arch: Option<Arch>, level: nat) returns (r: Result<ChunkResult>)
    ensures r == CompressChunkBest(codec, data, isCode, arch, level)
  {
    hide Apply, Delta.Differences, CompressBuf, BestOfFirst, OutcomesOf, Tracks;
    ghost var cs := Candidates(data, isCode, arch, level);
    ghost var os := OutcomesOf(codec, cs, level);
    ghost var k := 1;
    assert Tracks(None, cs, os, 0) by { NothingTracked(cs, os); }
    var best :- TryCandidate(codec, cs, 0, Candidate(0, data, COMBO_RAW), level, None);
    if level == 0 {
      Finish(codec, data, isCode, arch, level, best);
      return Ok(ChunkResult(best.value.preproc, best.value.compressed, |data|));
    }
    best :- TryCandidate(codec, cs, 1, Candidate(0, data, COMBO_ALIGNED), level, best);
    k := 2;
    if isCode && arch == Some(Arm64) && |data| >= 16 {
      var tmp := new byte[|data|](i requires 0 <= i < |data| => data[i]);
      assert tmp[..] == data;
      PlaneSection(tmp, 0, |data|);
      WholeSplice(data, Apply(ArmPlaned, data, Encode));
      best :- TryCandidate(codec, cs, k, Candidate(1, tmp[..], COMBO_FILTERED), level, best);
      k := k + 1;
    }
    if |data| >= 4 {
      var tmp := new byte[|data|](i requires 0 <= i < |data| => data[i]);
      assert tmp[..] == data;
      Delta.Encode(tmp, 0, |data|);
      WholeSplice(data, Delta.Differences(0, data));
      best :- TryCandidate(codec, cs, k, Candidate(2, tmp[..], COMBO_FILTERED), level, best);
      k := k + 1;
    }
    assert k == |cs|;
    Finish(codec, data, isCode, arch, level, best);
    return Ok(ChunkResult(best.value.preproc, best.value.compressed, |data|));
  }

  lemma NothingTracked(cs: seq<Candidate>, os: Outcomes)
    requires |os| == |cs|
    ensures Tracks(None, cs, os, 0)
  {
  }

  // ---- What the result means ----

  /** Every candidate keeps the length and is undone by the decoder's rule for its type. */
  lemma CandidatesUndone(data: seq<byte>, isCode: bool, arch: Option<Arch>, level: nat, i: nat)
    requires i < |Candidates(data, isCode, arch, level)|
    ensures var c := Candidates(data, isCode, arch, level)[i];
            c.preproc <= 2 && |c.input| == |data| && UndoPreproc(c.input, c.preproc) == Ok(data)
  {
    hide Apply, Delta.Differences, Delta.Sums, UndoBlob;
    ApplyInverse(ArmPlaned, data, Encode);
    Delta.SumsOfDifferences(0, data);
  }

  /** The chosen payload decodes, and its preprocessing is undone, to the chunk. */
  lemma ChunkRoundTrip(codec: Codec, data: seq<byte>, isCode: bool, arch: Option<Arch>, level: nat)
    requires CompressChunkBest(codec, data, isCode, arch, level).Ok? && |data| <= MAX_OUTPUT
    ensures var r := CompressChunkBest(codec, data, isCode, arch, level).value;
            && r.preproc <= 2 && r.origSize == |data| && 1 <= |r.compressed| <= U32_MAX
            && var payload := DecompressBuf(codec, r.compressed, |data|);
               payload.Ok? && UndoPreproc(payload.value, r.preproc) == Ok(data)
  {
    hide Candidates, CompressBuf, DecompressBuf, UndoPreproc, BestOfFirst;
    var cs := Candidates(data, isCode, arch, level);
    var os := OutcomesOf(codec, cs, level);
    WinnerIsEarliestShortest(os);
    var p := Winner(os).value.pass;
    CandidatesUndone(data, isCode, arch, level, p);
    PayloadRoundTrip(codec, cs[p].input, cs[p].combo, level);
  }

  /** No candidate is shorter than the one kept, and no earlier one is as short. */
  lemma ChunkIsEarliestShortest(codec: Codec, data: seq<byte>, isCode: bool, arch: Option<Arch>, level: nat)
    requires CompressChunkBest(codec, data, isCode, arch, level).Ok?
    ensures var cs := Candidates(data, isCode, arch, level);
            var r := CompressChunkBest(codec, data, isCode, arch, level).value;
            exists p :: 0 <= p < |cs| && r.preproc == cs[p].preproc
                        && CompressBuf(codec, cs[p].input, cs[p].combo, level) == Ok(r.compressed)
                        && forall q :: 0 <= q < |cs| ==>
                             var other := CompressBuf(codec, cs[q].input, cs[q].combo, level);
                             other.Ok? && |r.compressed| <= |other.value| && (q < p ==> |r.compressed| < |other.value|)
  {
    hide Candidates, CompressBuf, BestOfFirst;
    var cs := Candidates(data, isCode, arch, level);
    var os := OutcomesOf(codec, cs, level);
    WinnerIsEarliestShortest(os);
    var p := Winner(os).value.pass;
    assert os[p] == ToOption(CompressBuf(codec, cs[p].input, cs[p].combo, level));
    forall q | 0 <= q < |cs|
      ensures var other := CompressBuf(codec, cs[q].input, cs[q].combo, level);
              other.Ok? && Winner(os).value.size <= |other.value| && (q < p ==> Winner(os).value.size < |other.value|)
    {
      assert os[q] in os && os[q] == ToOption(CompressBuf(codec, cs[q].input, cs[q].combo, level));
    }
  }
}

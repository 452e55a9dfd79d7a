/** What the preprocessing variants are, byte by byte: src/compress.rs, src/pack.rs and src/decompress.rs. */
module Variants {
  import opened Bytes
  import opened Normalize
  import opened Elf
  import opened Transforms
  import opened CodeSections
  import opened Lzma
  import opened Format
  import opened Decompress
  import opened Chunking
  import opened Compress
  import opened ContainerFormat
  import opened Packing
  import Delta

  // ---- Sections ----

  lemma {:induction false} RangeIndex(secs: seq<Section>, xf: Transform, s: Section) returns (k: nat)
    requires s in secs && s.isCode
    ensures k < |CodeRanges(secs, xf)| && CodeRanges(secs, xf)[k] == Range(s.offset, s.size, xf)
  {
    if secs[0] == s {
      k := 0;
    } else {
      k := RangeIndex(secs[1..], xf, s);
      if secs[0].isCode {
        k := k + 1;
      } else {
        assert [] + CodeRanges(secs[1..], xf) == CodeRanges(secs[1..], xf);
      }
    }
  }

  lemma SectionTransformed(data: seq<byte>, secs: seq<Section>, xf: Transform, dir: Direction, s: Section)
    requires SectionsFit(secs, |data|) && SectionsApart(secs) && s in secs && s.isCode
    ensures ApplySections(data, secs, xf, dir)[s.offset..s.End()] == Apply(xf, data[s.offset..s.End()], dir)
  {
    hide Apply, ApplyAll, CodeRanges;
    CodeRangesInBounds(secs, xf, |data|);
    CodeRangesDisjoint(secs, xf);
    var k := RangeIndex(secs, xf, s);
    RangeTransformed(data, CodeRanges(secs, xf), dir, k);
  }

  /** Byte `i` lies in a code section. */
  ghost predicate InCode(secs: seq<Section>, i: nat) {
    exists s :: s in secs && s.isCode && s.offset <= i < s.End()
  }

  lemma ElsewhereKept(data: seq<byte>, secs: seq<Section>, xf: Transform, dir: Direction, i: nat)
    requires SectionsFit(secs, |data|) && i < |data| && !InCode(secs, i)
    ensures ApplySections(data, secs, xf, dir)[i] == data[i]
  {
    hide ApplyAll, CodeRanges;
    var rs := CodeRanges(secs, xf);
    CodeRangesInBounds(secs, xf, |data|);
    CodeRangesFrom(secs, xf);
    forall r | r in rs ensures i < r.off || r.End() <= i {
      var s :| s in secs && s.isCode && r.off == s.offset && r.End() == s.End();
    }
    OutsideUnchanged(data, rs, dir, i);
  }

  /** Branch targets made absolute, by architecture. */
  function Absolute(arch: Arch, x: seq<byte>): seq<byte> {
    if arch == Arm64 then ArmBranches(x, 0, Encode) else X86Branches(x, 0, Encode)
  }

  /** `b` is `data` with the branches of every code section made absolute, and nothing else. */
  ghost predicate HasAbsoluteCode(b: seq<byte>, data: seq<byte>, secs: seq<Section>, arch: Arch)
    requires SectionsFit(secs, |data|)
  {
    && |b| == |data|
    && (forall s :: s in secs && s.isCode ==> b[s.offset..s.End()] == Absolute(arch, data[s.offset..s.End()]))
    && (forall i :: 0 <= i < |data| && !InCode(secs, i) ==> b[i] == data[i])
  }

  /** `b` is `data` with every code section normalized, split into planes and delta coded, and nothing else. */
  ghost predicate HasPlanedCode(b: seq<byte>, data: seq<byte>, secs: seq<Section>)
    requires SectionsFit(secs, |data|)
  {
    && |b| == |data|
    && (forall s :: s in secs && s.isCode ==> IsPlaned(b[s.offset..s.End()], Absolute(Arm64, data[s.offset..s.End()])))
    && (forall i :: 0 <= i < |data| && !InCode(secs, i) ==> b[i] == data[i])
  }

  lemma BranchesAbsolute(data: seq<byte>, secs: seq<Section>, arch: Arch)
    requires SectionsFit(secs, |data|) && SectionsApart(secs)
    ensures HasAbsoluteCode(ApplySections(data, secs, SectionTransform(arch, false), Encode), data, secs, arch)
  {
    hide ApplySections, ArmBranches, X86Branches, InCode;
    var xf := SectionTransform(arch, false);
    var b := ApplySections(data, secs, xf, Encode);
    forall s | s in secs && s.isCode ensures b[s.offset..s.End()] == Absolute(arch, data[s.offset..s.End()]) {
      SectionTransformed(data, secs, xf, Encode, s);
    }
    forall i | 0 <= i < |data| && !InCode(secs, i) ensures b[i] == data[i] {
      ElsewhereKept(data, secs, xf, Encode, i);
    }
  }

  lemma SectionsPlaned(data: seq<byte>, secs: seq<Section>)
    requires SectionsFit(secs, |data|) && SectionsApart(secs)
    ensures HasPlanedCode(ApplySections(data, secs, ArmPlaned, Encode), data, secs)
  {
    hide ApplySections, ArmBranches, InCode, Apply, IsPlaned;
    var b := ApplySections(data, secs, ArmPlaned, Encode);
    forall s | s in secs && s.isCode ensures IsPlaned(b[s.offset..s.End()], Absolute(Arm64, data[s.offset..s.End()])) {
      SectionTransformed(data, secs, ArmPlaned, Encode, s);
      PlanedBytes(data[s.offset..s.End()]);
    }
    forall i | 0 <= i < |data| && !InCode(secs, i) ensures b[i] == data[i] {
      ElsewhereKept(data, secs, ArmPlaned, Encode, i);
    }
  }

  // ---- Variants of the whole file ----

  /** Every byte of `b` is the byte of `x` less the byte before it, modulo 256. */
  ghost predicate IsDelta(b: seq<byte>, x: seq<byte>) {
    |b| == |x| && forall i :: 0 <= i < |x| ==> b[i] as int == (x[i] as int - if i == 0 then 0 else x[i - 1] as int) % 256
  }

  lemma DifferencesAreDelta(x: seq<byte>)
    ensures IsDelta(Delta.Differences(0, x), x)
  {
    hide Delta.Differences;
    forall i | 0 <= i < |x|
      ensures Delta.Differences(0, x)[i] as int == (x[i] as int - if i == 0 then 0 else x[i - 1] as int) % 256
    {
      Delta.DifferenceAt(0, x, i);
    }
  }

  /**
   * The variants of a file whose chunks do not overlap: raw; code made absolute; code in planes with deltas;
   * a delta of the file; a delta of the file with its code made absolute.
   */
  lemma VariantBytes(data: seq<byte>, chunks: seq<Chunk>, arch: Arch)
    requires SectionsFit(chunks, |data|) && SectionsApart(chunks)
    ensures ModeBuffer(data, chunks, Some(arch), 0) == data
    ensures HasAbsoluteCode(ModeBuffer(data, chunks, Some(arch), 3), data, chunks, arch)
    ensures HasPlanedCode(ModeBuffer(data, chunks, Some(arch), 4), data, chunks)
    ensures IsDelta(ModeBuffer(data, chunks, Some(arch), 5), data)
    ensures IsDelta(ModeBuffer(data, chunks, Some(arch), 6), ModeBuffer(data, chunks, Some(arch), 3))
  {
    hide ApplySections, HasAbsoluteCode, HasPlanedCode, IsDelta, Delta.Differences;
    BranchesAbsolute(data, chunks, arch);
    SectionsPlaned(data, chunks);
    DifferencesAreDelta(data);
    DifferencesAreDelta(BranchNormalized(data, chunks, Some(arch)));
  }

  /** Which variants are tried, by level and kind of file. */
  lemma TypesTried(arch: Option<Arch>, level: nat, nChunks: nat, t: byte)
    ensures t in ModeTypes(arch, level, nChunks) <==>
              || t == 0
              || (t == 3 && arch.Some? && level >= 1)
              || (t == 4 && arch == Some(Arm64) && level >= 2)
              || (t == 5 && (level >= 3 || (level == 2 && arch.None?) || (level == 1 && nChunks == 1)))
              || (t == 6 && arch.Some? && (level >= 3 || (level == 2 && arch == Some(X86))))
  {
  }

  // ---- The undo, on any payload ----

  /** `back` is what the encoder would have turned into `buf`, the sections being those that `buf` itself shows. */
  ghost predicate EncodesTo(back: seq<byte>, buf: seq<byte>, planed: bool) {
    match Parse(buf)
    case None => back == buf
    case Some(info) =>
      |back| == |buf|
      && (ParseBounds(buf); ApplySections(back, info.sections, SectionTransform(info.arch, planed), Encode) == buf)
  }

  /** The sections that `buf` shows do not overlap. */
  ghost predicate ShowsApart(buf: seq<byte>) {
    Parse(buf).Some? ==> SectionsApart(Parse(buf).value.sections)
  }

  lemma BlobUndone(buf: seq<byte>, planed: bool)
    requires ShowsApart(buf)
    ensures EncodesTo(UndoBlob(buf, planed), buf, planed)
  {
    hide Parse, ApplySections;
    match Parse(buf)
    case None =>
    case Some(info) =>
      ParseBounds(buf);
      ApplySectionsInverse(buf, info.sections, SectionTransform(info.arch, planed), Decode);
  }

  /** Every undo inverts its type on any payload at all, whether or not an encoder made it. */
  lemma UndoInverts(buf: seq<byte>, t: byte)
    ensures t > 6 ==> UndoPreproc(buf, t) == Err(BadArchive)
    ensures t <= 6 ==> UndoPreproc(buf, t).Ok? && |UndoPreproc(buf, t).value| == |buf|
    ensures t == 0 ==> UndoPreproc(buf, t) == Ok(buf)
    ensures t == 1 ==> IsPlaned(buf, Absolute(Arm64, UndoPreproc(buf, t).value))
    ensures t == 2 || t == 5 ==> IsDelta(buf, UndoPreproc(buf, t).value)
    ensures (t == 3 || t == 4) && ShowsApart(buf) ==> EncodesTo(UndoPreproc(buf, t).value, buf, t == 4)
    ensures t == 6 ==>
              exists sums :: IsDelta(buf, sums) && (ShowsApart(sums) ==> EncodesTo(UndoPreproc(buf, t).value, sums, false))
  {
    hide UndoBlob, Apply, Delta.Sums, Delta.Differences, IsDelta, IsPlaned, EncodesTo, ShowsApart, ArmBranches;
    if t == 1 {
      ApplyInverse(ArmPlaned, buf, Decode);
      PlanedBytes(Apply(ArmPlaned, buf, Decode));
    } else if t == 2 || t == 5 || t == 6 {
      var sums := Delta.Sums(0, buf);
      Delta.DifferencesOfSums(0, buf);
      DifferencesAreDelta(sums);
      if ShowsApart(sums) {
        BlobUndone(sums, false);
      }
    } else if (t == 3 || t == 4) && ShowsApart(buf) {
      BlobUndone(buf, t == 4);
    }
  }

  // ---- The packer ----

  lemma {:induction false} StoredExactly(secs: seq<Section>, arch: Arch, r: CodeRange)
    requires SectionsFit(secs, U64_MAX)
    ensures r in StoredRanges(secs, arch) <==> Section(r.off, r.size, true) in secs && r.arch == if arch == Arm64 then 1 else 2
  {
    if secs != [] {
      assert secs[0] in secs;
      StoredExactly(secs[1..], arch, r);
    }
  }

  lemma {:induction false} StoredInOrder(secs: seq<Section>, arch: Arch, i: nat, j: nat)
    requires SectionsFit(secs, U64_MAX) && (forall a, b :: 0 <= a < b < |secs| ==> secs[a].offset <= secs[b].offset)
    requires i < j < |StoredRanges(secs, arch)|
    ensures StoredRanges(secs, arch)[i].off <= StoredRanges(secs, arch)[j].off
  {
    assert secs[0] in secs;
    var rest := StoredRanges(secs[1..], arch);
    assert forall a, b :: 0 <= a < b < |secs[1..]| ==> secs[1..][a] == secs[a + 1] && secs[1..][b] == secs[b + 1];
    if secs[0].isCode {
      if i > 0 {
        StoredInOrder(secs[1..], arch, i - 1, j - 1);
      } else {
        var r := rest[j - 1];
        StoredExactly(secs[1..], arch, r);
        var k :| 0 <= k < |secs[1..]| && secs[1..][k] == Section(r.off, r.size, true);
        assert secs[k + 1].offset == r.off;
      }
    } else {
      assert StoredRanges(secs, arch) == rest;
      StoredInOrder(secs[1..], arch, i, j);
    }
  }

  /**
   * The blob of a packed file is the file with its code made absolute; the stored ranges are its code sections
   * in offset order under the architecture's byte; a file that does not parse is stored as it is.
   */
  lemma PackedBlob(raw: seq<byte>)
    requires Loadable(raw)
    ensures ParseForPack(raw).None? ==> NormalizeForSolid(raw) == Normalized(raw, [], None)
    ensures ParseForPack(raw).Some? ==>
              var n, info := NormalizeForSolid(raw), ParseForPack(raw).value;
              && n.elfId == Some((info.arch, info.eType)) && SectionsFit(info.sections, |raw|)
              && (SectionsApart(info.sections) ==> HasAbsoluteCode(n.blob, raw, info.sections, info.arch))
              && (forall r :: r in n.ranges <==>
                    Section(r.off, r.size, true) in info.sections && r.arch == if info.arch == Arm64 then 1 else 2)
              && (forall i, j :: 0 <= i < j < |n.ranges| ==> n.ranges[i].off <= n.ranges[j].off)
  {
    hide ParseForPack, ApplySections, StoredRanges, HasAbsoluteCode;
    match ParseForPack(raw)
    case None =>
    case Some(info) =>
      ParseForPackBounds(raw);
      if SectionsApart(info.sections) {
        BranchesAbsolute(raw, info.sections, info.arch);
      }
      var rs := StoredRanges(info.sections, info.arch);
      forall r ensures r in rs <==> Section(r.off, r.size, true) in info.sections && r.arch == if info.arch == Arm64 then 1 else 2 {
        StoredExactly(info.sections, info.arch, r);
      }
      forall i, j | 0 <= i < j < |rs| ensures rs[i].off <= rs[j].off {
        StoredInOrder(info.sections, info.arch, i, j);
      }
  }
}

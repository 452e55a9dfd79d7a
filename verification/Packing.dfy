/** From files to entries and a solid blob: normalize_for_solid, classify and pack_specs of src/pack.rs. */
module Packing {
  import opened Bytes
  import opened Normalize
  import opened Elf
  import opened Transforms
  import opened CodeSections
  import opened ContainerFormat
  import opened Unpacking
  import opened Cluster
  import opened SolidLayout

  // ---- One file ----

  function StoredRange(s: Section, arch: Arch): seq<CodeRange>
    requires s.End() <= U64_MAX
  {
    if s.isCode then [CodeRange(s.offset, s.size, if arch == Arm64 then ARCH_ARM64 else ARCH_X86)] else []
  }

  function StoredRanges(secs: seq<Section>, arch: Arch): seq<CodeRange>
    requires SectionsFit(secs, U64_MAX)
  {
    if secs == [] then [] else StoredRange(secs[0], arch) + StoredRanges(secs[1..], arch)
  }

  datatype Normalized = Normalized(blob: seq<byte>, ranges: seq<CodeRange>, elfId: Option<(Arch, nat)>)

  /** A file whose length fits `usize`. */
  predicate Loadable(raw: seq<byte>) {
    |raw| <= U64_MAX
  }

  function NormalizeForSolid(raw: seq<byte>): (n: Normalized)
    requires Loadable(raw)
    ensures |n.blob| == |raw|
  {
    match ParseForPack(raw)
    case None => Normalized(raw, [], None)
    case Some(info) =>
      ParseForPackBounds(raw);
      Normalized(ApplySections(raw, info.sections, SectionTransform(info.arch, false), Encode),
                 StoredRanges(info.sections, info.arch), Some((info.arch, info.eType)))
  }

  lemma {:induction false} StoredAreTransformed(secs: seq<Section>, arch: Arch, len: nat)
    requires SectionsFit(secs, len) && len <= U64_MAX
    ensures SectionsFit(secs, U64_MAX)
    ensures ToRanges(StoredRanges(secs, arch)) == CodeRanges(secs, SectionTransform(arch, false))
    ensures Decodable(StoredRanges(secs, arch), len)
  {
    if secs != [] {
      assert secs[0] in secs;
      StoredAreTransformed(secs[1..], arch, len);
      var rs := StoredRanges(secs, arch);
      if secs[0].isCode {
        assert rs[1..] == StoredRanges(secs[1..], arch);
      } else {
        assert rs == StoredRanges(secs[1..], arch);
        assert [] + CodeRanges(secs[1..], SectionTransform(arch, false)) == CodeRanges(secs[1..], SectionTransform(arch, false));
      }
    }
  }

  /** The code ranges of the file do not overlap. */
  ghost predicate CodeApart(raw: seq<byte>) {
    match ParseForPack(raw)
    case None => true
    case Some(info) => Disjoint(CodeRanges(info.sections, SectionTransform(info.arch, false)))
  }

  /** Normalizing the code of the file from the first section to the last or the other way round is the same. */
  predicate CodeOrderFree(raw: seq<byte>) {
    match ParseForPack(raw)
    case None => true
    case Some(info) =>
      ParseForPackBounds(raw);
      SectionsOrderFree(raw, info.sections, SectionTransform(info.arch, false))
  }

  lemma ApartFilesAreOrderFree(raw: seq<byte>)
    requires CodeApart(raw)
    ensures CodeOrderFree(raw)
  {
    match ParseForPack(raw)
    case None =>
    case Some(info) =>
      var xf := SectionTransform(info.arch, false);
      ParseForPackBounds(raw);
      CodeRangesInBounds(info.sections, xf, |raw|);
      DisjointIsOrderFree(raw, CodeRanges(info.sections, xf), Encode);
  }

  /**
   * The stored ranges always denormalize without error, and no ELF is parsed again; what comes out is the
   * file exactly when the order of its code sections does not matter, and other bytes otherwise.
   */
  lemma NormalizationUndone(raw: seq<byte>)
    requires Loadable(raw)
    ensures var n := NormalizeForSolid(raw);
            var back := DenormalizeFile(n.blob, n.ranges);
            back.Ok? && (back == Ok(raw) <==> CodeOrderFree(raw))
  {
    match ParseForPack(raw)
    case None =>
    case Some(info) =>
      var xf := SectionTransform(info.arch, false);
      ParseForPackBounds(raw);
      StoredAreTransformed(info.sections, info.arch, |raw|);
      var n := NormalizeForSolid(raw);
      DenormalizeIsApplyAll(n.blob, n.ranges);
      SectionsUndoExact(raw, info.sections, xf);
  }

  /** What packing and unpacking make of a file. */
  function Restored(raw: seq<byte>): (back: seq<byte>)
    requires Loadable(raw)
    ensures |back| == |raw|
    ensures var n := NormalizeForSolid(raw); DenormalizeFile(n.blob, n.ranges) == Ok(back)
    ensures back == raw <==> CodeOrderFree(raw)
  {
    NormalizationUndone(raw);
    var n := NormalizeForSolid(raw);
    DenormalizeFile(n.blob, n.ranges).value
  }

  lemma {:induction false} StoredRangesAppend(secs: seq<Section>, s: Section, arch: Arch)
    requires SectionsFit(secs, U64_MAX) && s.End() <= U64_MAX
    ensures SectionsFit(secs + [s], U64_MAX)
    ensures StoredRanges(secs + [s], arch) == StoredRanges(secs, arch) + StoredRange(s, arch)
  {
    if secs == [] {
      assert [] + [s] == [s] && [s][1..] == [];
    } else {
      assert secs[0] in secs && (secs + [s])[0] == secs[0] && (secs + [s])[1..] == secs[1..] + [s];
      StoredRangesAppend(secs[1..], s, arch);
    }
  }

  lemma Shorter(secs: seq<Section>, i: nat, len: nat)
    requires SectionsFit(secs, len) && i < |secs| && len <= U64_MAX
    ensures SectionsFit(secs, U64_MAX) && SectionsFit(secs[..i], U64_MAX) && SectionsFit(secs[..i + 1], U64_MAX)
    ensures secs[i].End() <= len && secs[..i] + [secs[i]] == secs[..i + 1]
  {
  }

  method NormalizeFile(raw: seq<byte>) returns (n: Normalized)
    requires Loadable(raw)
    ensures n == NormalizeForSolid(raw)
  {
    hide ParseForPack, ApplySections, ApplyOne, StoredRanges;
    var parsed := ParseSegmentsToo(raw);
    if parsed.None? {
      return Normalized(raw, [], None);
    }
    var info := parsed.value;
    var secs, xf := info.sections, SectionTransform(info.arch, false);
    ParseForPackBounds(raw);
    var out := new byte[|raw|](i requires 0 <= i < |raw| => raw[i]);
    assert out[..] == raw;
    var ranges: seq<CodeRange> := [];
    NoSections(raw, xf, Encode);
    assert StoredRanges([], info.arch) == [] by { NoStored(info.arch); }
    for i := 0 to |secs|
      invariant SectionsFit(secs[..i], |raw|) && out[..] == ApplySections(raw, secs[..i], xf, Encode)
      invariant SectionsFit(secs[..i], U64_MAX) && ranges == StoredRanges(secs[..i], info.arch)
    {
      var s := secs[i];
      Shorter(secs, i, |raw|);
      ApplySectionsStep(raw, secs, i, xf, Encode);
      StoredRangesAppend(secs[..i], s, info.arch);
      if !s.isCode {
        continue;
      }
      if s.offset + s.size > out.Length {
        continue;
      }
      ApplySection(out, Range(s.offset, s.size, xf), Encode);
      ranges := ranges + [CodeRange(s.offset, s.size, if info.arch == Arm64 then ARCH_ARM64 else ARCH_X86)];
    }
    assert secs[..|secs|] == secs;
    return Normalized(out[..], ranges, Some((info.arch, info.eType)));
  }

  lemma NoStored(arch: Arch)
    ensures StoredRanges([], arch) == []
  {
  }

  predicate EndsWith(s: Text, t: Text) {
    |t| <= |s| && s[|s| - |t|..] == t
  }

  const DOT_SH: Text := [0x2E, 0x73, 0x68]
  const SHEBANG: Text := [0x23, 0x21]

  /** ARM64 executables, ARM64 objects, other ELF, scripts, the rest. */
  function Classify(lower: Text -> Text, path: Text, raw: seq<byte>, elfId: Option<(Arch, nat)>): Key {
    var cls :=
      match elfId
      case Some((Arm64, t)) => if t == 2 then 0 else 1
      case Some((X86, _)) => 2
      case None => if EndsWith(path, DOT_SH) || SHEBANG <= raw then 3 else 4;
    Key(cls, lower(path))
  }

  /** The class, from the bytes of the path and the file; the path enters the key lowercased. */
  lemma ClassifyExact(lower: Text -> Text, path: Text, raw: seq<byte>, elfId: Option<(Arch, nat)>)
    ensures var k := Classify(lower, path, raw, elfId);
            var n := |path|;
            var script := (n >= 3 && path[n - 3] == 0x2E && path[n - 2] == 0x73 && path[n - 1] == 0x68)
                          || (|raw| >= 2 && raw[0] == 0x23 && raw[1] == 0x21);
            && k.lower == lower(path)
            && (k.cls == 0 <==> elfId.Some? && elfId.value.0 == Arm64 && elfId.value.1 == 2)
            && (k.cls == 1 <==> elfId.Some? && elfId.value.0 == Arm64 && elfId.value.1 != 2)
            && (k.cls == 2 <==> elfId.Some? && elfId.value.0 == X86)
            && (k.cls == 3 <==> elfId.None? && script)
            && (k.cls == 4 <==> elfId.None? && !script)
  {
    var n := |path|;
    if n >= 3 {
      assert path[n - 3..] == [path[n - 3], path[n - 2], path[n - 1]];
    }
    if |raw| >= 2 {
      assert raw[..2] == [raw[0], raw[1]];
    }
  }

  // ---- What is packed ----

  datatype FileIn = FileIn(path: Text, meta: FileMeta, raw: seq<byte>)

  /** An inner entry of an ingested zip; `raw` matters for inner files only. */
  datatype InnerIn = InnerIn(inner: ZipInner, raw: seq<byte>)

  datatype ZipIn = ZipIn(path: Text, meta: FileMeta, inners: seq<InnerIn>)

  /** Files, zips with their decompressed contents, and entries without contents, each in manifest order. */
  datatype Inputs = Inputs(files: seq<FileIn>, zips: seq<ZipIn>, others: seq<PackEntry>)

  ghost predicate AllLoadable(inp: Inputs) {
    && (forall f :: f in inp.files ==> Loadable(f.raw))
    && (forall z, x :: z in inp.zips && x in z.inners ==> Loadable(x.raw))
  }

  function FileEntry(f: FileIn): PackEntry
    requires Loadable(f.raw)
  {
    PackEntry(f.path, File, f.meta, None, NormalizeForSolid(f.raw).ranges, 0, 0, [])
  }

  function InnerEntry(x: InnerIn): ZipInner
    requires Loadable(x.raw)
  {
    if x.inner.kind == ZIP_FILE then x.inner.(codeRanges := NormalizeForSolid(x.raw).ranges) else x.inner
  }

  function InnerEntries(xs: seq<InnerIn>): (zs: seq<ZipInner>)
    requires forall x :: x in xs ==> Loadable(x.raw)
    ensures |zs| == |xs| && forall i :: 0 <= i < |xs| ==> zs[i] == InnerEntry(xs[i])
  {
    seq(|xs|, i requires 0 <= i < |xs| && Loadable(xs[i].raw) => InnerEntry(xs[i]))
  }

  function ZipEntry(z: ZipIn): PackEntry
    requires forall x :: x in z.inners ==> Loadable(x.raw)
  {
    PackEntry(z.path, Zip, z.meta, None, [], 0, 0, InnerEntries(z.inners))
  }

  /** The entries before any place is known. */
  ghost function StartShelf(inp: Inputs): (sh: Shelf)
    requires AllLoadable(inp)
    ensures |sh.tops| == |inp.files| && |sh.zips| == |inp.zips|
    ensures forall i :: 0 <= i < |inp.files| ==> Loadable(inp.files[i].raw) && sh.tops[i] == FileEntry(inp.files[i])
    ensures forall i :: 0 <= i < |inp.zips| ==>
              (forall x :: x in inp.zips[i].inners ==> Loadable(x.raw)) && sh.zips[i] == ZipEntry(inp.zips[i])
  {
    Shelf(seq(|inp.files|, i requires 0 <= i < |inp.files| && inp.files[i] in inp.files => FileEntry(inp.files[i])),
          seq(|inp.zips|, i requires 0 <= i < |inp.zips| && inp.zips[i] in inp.zips => ZipEntry(inp.zips[i])))
  }

  function PoolItemOf(lower: Text -> Text, path: Text, raw: seq<byte>, back: Back): PoolItem
    requires Loadable(raw)
  {
    var n := NormalizeForSolid(raw);
    PoolItem(Classify(lower, path, raw, n.elfId), n.blob, back)
  }

  function TopItems(lower: Text -> Text, files: seq<FileIn>, n: nat): (p: seq<PoolItem>)
    requires n <= |files| && forall f :: f in files ==> Loadable(f.raw)
  {
    if n == 0 then [] else TopItems(lower, files, n - 1) + [PoolItemOf(lower, files[n - 1].path, files[n - 1].raw, Top(n - 1))]
  }

  function InnerItems(lower: Text -> Text, xs: seq<InnerIn>, zi: nat, n: nat): (p: seq<PoolItem>)
    requires n <= |xs| && forall x :: x in xs ==> Loadable(x.raw)
  {
    if n == 0 then []
    else
      var x := xs[n - 1];
      InnerItems(lower, xs, zi, n - 1)
      + if x.inner.kind == ZIP_FILE then [PoolItemOf(lower, x.inner.path, x.raw, Inner(zi, n - 1))] else []
  }

  function ZipItems(lower: Text -> Text, zips: seq<ZipIn>, n: nat): (p: seq<PoolItem>)
    requires n <= |zips| && forall z, x :: z in zips && x in z.inners ==> Loadable(x.raw)
  {
    if n == 0 then []
    else
      assert zips[n - 1] in zips;
      ZipItems(lower, zips, n - 1) + InnerItems(lower, zips[n - 1].inners, n - 1, |zips[n - 1].inners|)
  }

  /** Top-level files, then the inner files of every zip. */
  ghost function Pool(lower: Text -> Text, inp: Inputs): seq<PoolItem>
    requires AllLoadable(inp)
  {
    TopItems(lower, inp.files, |inp.files|) + ZipItems(lower, inp.zips, |inp.zips|)
  }

  // ---- The pool holds every file once ----

  predicate IsFileBack(inp: Inputs, b: Back) {
    match b
    case Top(i) => i < |inp.files|
    case Inner(zi, ii) => zi < |inp.zips| && ii < |inp.zips[zi].inners| && inp.zips[zi].inners[ii].inner.kind == ZIP_FILE
  }

  function RawAt(inp: Inputs, b: Back): seq<byte>
    requires IsFileBack(inp, b)
  {
    match b
    case Top(i) => inp.files[i].raw
    case Inner(zi, ii) => inp.zips[zi].inners[ii].raw
  }

  lemma RawLoadable(inp: Inputs, b: Back)
    requires AllLoadable(inp) && IsFileBack(inp, b)
    ensures Loadable(RawAt(inp, b))
  {
    match b
    case Top(i) => assert inp.files[i] in inp.files;
    case Inner(zi, ii) => assert inp.zips[zi] in inp.zips && inp.zips[zi].inners[ii] in inp.zips[zi].inners;
  }

  ghost predicate ItemsOk(inp: Inputs, pool: seq<PoolItem>)
    requires AllLoadable(inp)
  {
    forall x :: x in pool ==>
      IsFileBack(inp, x.back) && (RawLoadable(inp, x.back); x.blob == NormalizeForSolid(RawAt(inp, x.back)).blob)
  }

  predicate DistinctBacks(pool: seq<PoolItem>) {
    forall i, j :: 0 <= i < j < |pool| ==> pool[i].back != pool[j].back
  }

  predicate HasBack(pool: seq<PoolItem>, b: Back) {
    exists x :: x in pool && x.back == b
  }

  lemma DistinctConcat(p: seq<PoolItem>, q: seq<PoolItem>)
    requires DistinctBacks(p) && DistinctBacks(q) && forall x, y :: x in p && y in q ==> x.back != y.back
    ensures DistinctBacks(p + q)
  {
    forall i, j | 0 <= i < j < |p + q| ensures (p + q)[i].back != (p + q)[j].back {
      if i < |p| <= j {
        assert (p + q)[i] in p && (p + q)[j] in q;
      }
    }
  }

  lemma NoItems(inp: Inputs)
    requires AllLoadable(inp)
    ensures ItemsOk(inp, []) && DistinctBacks([])
  {
  }

  /** One more item, of a new owner. */
  lemma ItemAppended(inp: Inputs, p: seq<PoolItem>, x: PoolItem)
    requires AllLoadable(inp) && ItemsOk(inp, p) && DistinctBacks(p) && IsFileBack(inp, x.back) && Loadable(RawAt(inp, x.back))
    requires x.blob == NormalizeForSolid(RawAt(inp, x.back)).blob && forall y :: y in p ==> y.back != x.back
    ensures ItemsOk(inp, p + [x]) && DistinctBacks(p + [x])
    ensures forall b :: HasBack(p + [x], b) <==> HasBack(p, b) || b == x.back
  {
    hide NormalizeForSolid;
    DistinctConcat(p, [x]);
    HasBackConcat(p, [x]);
    assert x in [x];
  }

  lemma {:induction false} TopItemsHold(lower: Text -> Text, inp: Inputs, n: nat)
    requires AllLoadable(inp) && n <= |inp.files|
    ensures var p := TopItems(lower, inp.files, n);
            && ItemsOk(inp, p) && DistinctBacks(p)
            && (forall x :: x in p ==> x.back.Top? && x.back.i < n) && (forall i :: 0 <= i < n ==> HasBack(p, Top(i)))
  {
    hide NormalizeForSolid, Classify, ItemsOk, DistinctBacks, HasBack;
    if n == 0 {
      NoItems(inp);
    } else {
      TopItemsHold(lower, inp, n - 1);
      assert inp.files[n - 1] in inp.files;
      var p := TopItems(lower, inp.files, n - 1);
      ItemAppended(inp, p, PoolItemOf(lower, inp.files[n - 1].path, inp.files[n - 1].raw, Top(n - 1)));
    }
  }

  lemma HasBackConcat(p: seq<PoolItem>, q: seq<PoolItem>)
    ensures forall b :: HasBack(p + q, b) <==> HasBack(p, b) || HasBack(q, b)
  {
    forall b ensures HasBack(p + q, b) <==> HasBack(p, b) || HasBack(q, b) {
      if x :| x in p + q && x.back == b {
        assert x in p || x in q;
      }
      if x :| x in p && x.back == b {
        assert x in p + q;
      }
      if x :| x in q && x.back == b {
        assert x in p + q;
      }
    }
  }

  lemma {:induction false} InnerItemsHold(lower: Text -> Text, inp: Inputs, zi: nat, n: nat)
    requires AllLoadable(inp) && zi < |inp.zips| && n <= |inp.zips[zi].inners|
    ensures forall x :: x in inp.zips[zi].inners ==> Loadable(x.raw)
    ensures var p := InnerItems(lower, inp.zips[zi].inners, zi, n);
            && ItemsOk(inp, p) && DistinctBacks(p)
            && (forall x :: x in p ==> x.back.Inner? && x.back.zi == zi && x.back.ii < n)
            && (forall ii :: 0 <= ii < n && inp.zips[zi].inners[ii].inner.kind == ZIP_FILE ==> HasBack(p, Inner(zi, ii)))
  {
    hide NormalizeForSolid, Classify, ItemsOk, DistinctBacks, HasBack;
    if n == 0 {
      NoItems(inp);
    } else {
      InnerItemsHold(lower, inp, zi, n - 1);
      var p := InnerItems(lower, inp.zips[zi].inners, zi, n - 1);
      var x := inp.zips[zi].inners[n - 1];
      if x.inner.kind == ZIP_FILE {
        ItemAppended(inp, p, PoolItemOf(lower, x.inner.path, x.raw, Inner(zi, n - 1)));
      } else {
        assert p + [] == p;
      }
    }
  }

  lemma {:induction false} ZipItemsHold(lower: Text -> Text, inp: Inputs, n: nat)
    requires AllLoadable(inp) && n <= |inp.zips|
    ensures var p := ZipItems(lower, inp.zips, n);
            && ItemsOk(inp, p) && DistinctBacks(p)
            && (forall x :: x in p ==> x.back.Inner? && x.back.zi < n)
            && (forall zi, ii :: 0 <= zi < n && IsFileBack(inp, Inner(zi, ii)) ==> HasBack(p, Inner(zi, ii)))
  {
    hide InnerItems;
    if n > 0 {
      ZipItemsHold(lower, inp, n - 1);
      InnerItemsHold(lower, inp, n - 1, |inp.zips[n - 1].inners|);
      var p, q := ZipItems(lower, inp.zips, n - 1), InnerItems(lower, inp.zips[n - 1].inners, n - 1, |inp.zips[n - 1].inners|);
      DistinctConcat(p, q);
      HasBackConcat(p, q);
    }
  }

  /** Each file exactly once, with its normalized bytes. */
  ghost predicate Faithful(inp: Inputs, pool: seq<PoolItem>)
    requires AllLoadable(inp)
  {
    ItemsOk(inp, pool) && DistinctBacks(pool) && forall b :: IsFileBack(inp, b) ==> HasBack(pool, b)
  }

  lemma PoolFaithful(lower: Text -> Text, inp: Inputs)
    requires AllLoadable(inp)
    ensures Faithful(inp, Pool(lower, inp))
  {
    hide TopItems, ZipItems;
    var p, q := TopItems(lower, inp.files, |inp.files|), ZipItems(lower, inp.zips, |inp.zips|);
    TopItemsHold(lower, inp, |inp.files|);
    ZipItemsHold(lower, inp, |inp.zips|);
    DistinctConcat(p, q);
    HasBackConcat(p, q);
    forall b | IsFileBack(inp, b) ensures HasBack(p + q, b) {
      match b
      case Top(i) => assert HasBack(p, Top(i));
      case Inner(zi, ii) => assert HasBack(q, Inner(zi, ii));
    }
  }

  // ---- Clustering keeps all that ----

  lemma DistinctCount(a: seq<PoolItem>, p: nat)
    requires DistinctBacks(a) && p < |a|
    ensures multiset(a)[a[p]] == 1
  {
    var x := a[p];
    assert a == a[..p] + [x] + a[p + 1..];
    assert x !in a[..p] && x !in a[p + 1..];
  }

  lemma TwiceCount(b: seq<PoolItem>, i: nat, j: nat)
    requires i < j < |b| && b[i] == b[j]
    ensures multiset(b)[b[i]] >= 2
  {
    assert b == b[..i] + [b[i]] + b[i + 1..j] + [b[j]] + b[j + 1..];
  }

  lemma FaithfulUnderPermutation(inp: Inputs, a: seq<PoolItem>, b: seq<PoolItem>)
    requires AllLoadable(inp) && Faithful(inp, a) && multiset(a) == multiset(b)
    ensures Faithful(inp, b)
  {
    hide NormalizeForSolid;
    forall x ensures x in a <==> x in b {
      assert x in multiset(a) <==> x in multiset(b);
    }
    forall i, j | 0 <= i < j < |b| ensures b[i].back != b[j].back {
      if b[i].back == b[j].back {
        assert b[i] in a && b[j] in a;
        var p :| 0 <= p < |a| && a[p] == b[i];
        var q :| 0 <= q < |a| && a[q] == b[j];
        assert p == q;
        DistinctCount(a, p);
        TwiceCount(b, i, j);
      }
    }
    forall k | IsFileBack(inp, k) ensures HasBack(b, k) {
      var x :| x in a && x.back == k;
      assert x in b;
    }
  }

  lemma FaithfulOwned(inp: Inputs, pool: seq<PoolItem>)
    requires AllLoadable(inp) && Faithful(inp, pool)
    ensures Owned(pool, StartShelf(inp))
  {
    hide NormalizeForSolid;
    var sh := StartShelf(inp);
    forall x | x in pool ensures BackOk(x.back, sh) {
      assert IsFileBack(inp, x.back);
    }
  }

  // ---- The plan ----

  ghost function Ordered(lower: Text -> Text, inp: Inputs): (pool: seq<PoolItem>)
    requires AllLoadable(inp)
    ensures Faithful(inp, pool) && Owned(pool, StartShelf(inp))
  {
    PoolFaithful(lower, inp);
    ClusteredPermutes(Pool(lower, inp));
    FaithfulUnderPermutation(inp, Pool(lower, inp), Clustered(Pool(lower, inp)));
    FaithfulOwned(inp, Clustered(Pool(lower, inp)));
    Clustered(Pool(lower, inp))
  }

  ghost function Solid(lower: Text -> Text, inp: Inputs): seq<byte>
    requires AllLoadable(inp)
  {
    Lay(Blobs(Ordered(lower, inp)))
  }

  ghost predicate Packable(lower: Text -> Text, inp: Inputs) {
    AllLoadable(inp) && |Solid(lower, inp)| <= U64_MAX
  }

  /** Files and zips with their places, then everything else. */
  ghost function Shelved(lower: Text -> Text, inp: Inputs): (sh: Shelf)
    requires Packable(lower, inp)
    ensures Placed(Ordered(lower, inp), StartShelf(inp), sh, |Ordered(lower, inp)|)
  {
    Scatter(Ordered(lower, inp), StartShelf(inp), |Ordered(lower, inp)|)
  }

  ghost function Entries(lower: Text -> Text, inp: Inputs): seq<PackEntry>
    requires Packable(lower, inp)
  {
    Shelved(lower, inp).tops + Shelved(lower, inp).zips + inp.others
  }

  // ---- The loops of the packer ----

  method PushTopItems(lower: Text -> Text, files: seq<FileIn>) returns (tops: seq<PackEntry>, pool: seq<PoolItem>)
    requires forall f :: f in files ==> Loadable(f.raw)
    ensures |tops| == |files| && forall i :: 0 <= i < |files| ==> Loadable(files[i].raw) && tops[i] == FileEntry(files[i])
    ensures pool == TopItems(lower, files, |files|)
  {
    hide NormalizeForSolid, Classify;
    tops, pool := [], [];
    for i := 0 to |files|
      invariant |tops| == i && forall k :: 0 <= k < i ==> Loadable(files[k].raw) && tops[k] == FileEntry(files[k])
      invariant pool == TopItems(lower, files, i)
    {
      var f := files[i];
      var n := NormalizeFile(f.raw);
      tops := tops + [PackEntry(f.path, File, f.meta, None, n.ranges, 0, 0, [])];
      pool := pool + [PoolItem(Classify(lower, f.path, f.raw, n.elfId), n.blob, Top(i))];
    }
  }

  method PushInnerItems(lower: Text -> Text, xs: seq<InnerIn>, zi: nat) returns (inners: seq<ZipInner>, works: seq<PoolItem>)
    requires forall x :: x in xs ==> Loadable(x.raw)
    ensures inners == InnerEntries(xs) && works == InnerItems(lower, xs, zi, |xs|)
  {
    hide NormalizeForSolid, Classify;
    inners, works := [], [];
    for ii := 0 to |xs|
      invariant |inners| == ii && forall k :: 0 <= k < ii ==> inners[k] == InnerEntries(xs)[k]
      invariant works == InnerItems(lower, xs, zi, ii)
    {
      var x := xs[ii];
      if x.inner.kind == ZIP_FILE {
        var n := NormalizeFile(x.raw);
        inners := inners + [x.inner.(codeRanges := n.ranges)];
        works := works + [PoolItem(Classify(lower, x.inner.path, x.raw, n.elfId), n.blob, Inner(zi, ii))];
      } else {
        inners := inners + [x.inner];
      }
    }
  }

  method PushZipItems(lower: Text -> Text, zips: seq<ZipIn>) returns (entries: seq<PackEntry>, pool: seq<PoolItem>)
    requires forall z, x :: z in zips && x in z.inners ==> Loadable(x.raw)
    ensures |entries| == |zips|
    ensures forall i :: 0 <= i < |zips| ==> (forall x :: x in zips[i].inners ==> Loadable(x.raw)) && entries[i] == ZipEntry(zips[i])
    ensures pool == ZipItems(lower, zips, |zips|)
  {
    hide InnerItems;
    entries, pool := [], [];
    for zi := 0 to |zips|
      invariant |entries| == zi
      invariant forall k :: 0 <= k < zi ==> (forall x :: x in zips[k].inners ==> Loadable(x.raw)) && entries[k] == ZipEntry(zips[k])
      invariant pool == ZipItems(lower, zips, zi)
    {
      assert zips[zi] in zips;
      var inners, works := PushInnerItems(lower, zips[zi].inners, zi);
      entries := entries + [PackEntry(zips[zi].path, Zip, zips[zi].meta, None, [], 0, 0, inners)];
      pool := pool + works;
    }
  }

  /** Normalize, cluster, lay out. */
  method Plan(lower: Text -> Text, inp: Inputs) returns (entries: seq<PackEntry>, solid: seq<byte>)
    requires Packable(lower, inp)
    ensures entries == Entries(lower, inp) && solid == Solid(lower, inp)
  {
    hide TopItems, ZipItems, Clustered, Scatter, Lay, FileEntry, ZipEntry;
    var tops, topPool := PushTopItems(lower, inp.files);
    var zips, zipPool := PushZipItems(lower, inp.zips);
    assert topPool + zipPool == Pool(lower, inp);
    var sorted := ClusterPool(topPool + zipPool);
    assert sorted == Ordered(lower, inp);
    var start := Shelf(tops, zips);
    assert start == StartShelf(inp) by {
      assert tops == StartShelf(inp).tops && zips == StartShelf(inp).zips;
    }
    var sh;
    solid, sh := LayOut(sorted, start);
    entries := sh.tops + sh.zips + inp.others;
  }
}

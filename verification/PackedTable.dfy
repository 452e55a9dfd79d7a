/** When packing succeeds, and what the entry table of a packed image says about the inputs: src/pack.rs. */
module PackedTable {
  import opened Bytes
  import opened Lzma
  import opened CodeSections
  import opened Chunking
  import opened Compress
  import opened Decompress
  import opened Ucomp01
  import opened EncoderLaws
  import opened ContainerFormat
  import opened ContainerRoundTrip
  import opened Unpacking
  import opened Cluster
  import opened SolidLayout
  import opened Packing
  import opened Ucomp02
  import opened Ucomp02RoundTrip

  // ---- What can be written ----

  predicate Fits16(n: nat) {
    n <= 0xFFFF
  }

  predicate MetaWritable(m: FileMeta) {
    m.context.Some? ==> Fits16(|m.context.value|)
  }

  /** Strings below 64 KiB, few enough ranges, and a known method. */
  predicate InnerWritable(z: ZipInner) {
    && Fits16(|z.path|)
    && (z.kind == 0 ==> (z.method_ == 0 || z.method_ == 8) && Fits16(|z.codeRanges|))
    && (z.kind == 2 && z.linkTarget.Some? ==> Fits16(|z.linkTarget.value|))
  }

  predicate EntryWritable(e: PackEntry) {
    && Fits16(|e.path|) && MetaWritable(e.meta)
    && (e.kind == File ==> Fits16(|e.codeRanges|))
    && (e.kind == Link && e.linkTarget.Some? ==> Fits16(|e.linkTarget.value|))
    && (e.kind == Zip ==> Fits16(|e.zipInners|) && forall z :: z in e.zipInners ==> InnerWritable(z))
  }

  lemma InnerWrites(z: ZipInner)
    ensures InnerBytes(z).Ok? <==> InnerWritable(z)
  {
  }

  lemma {:induction false} InnersWrite(zs: seq<ZipInner>)
    ensures InnerListBytes(zs).Ok? <==> forall z :: z in zs ==> InnerWritable(z)
  {
    hide InnerBytes, InnerWritable;
    if zs != [] {
      InnerWrites(zs[0]);
      InnersWrite(zs[1..]);
    }
  }

  lemma EntryWrites(e: PackEntry)
    ensures EntryBytes(e).Ok? <==> EntryWritable(e)
  {
    hide InnerListBytes, InnerWritable, RangeListBytes, ToLE;
    InnersWrite(e.zipInners);
  }

  lemma {:induction false} EntriesWrite(es: seq<PackEntry>)
    ensures EntryListBytes(es).Ok? <==> forall e :: e in es ==> EntryWritable(e)
  {
    hide EntryBytes, EntryWritable;
    if es != [] {
      EntryWrites(es[0]);
      EntriesWrite(es[1..]);
    }
  }

  /** A container is written exactly when its counts and strings fit their length fields. */
  lemma ContainerWrites(es: seq<PackEntry>, solid: seq<byte>)
    ensures ContainerBytes(es, solid).Ok? <==> |es| <= 0xFFFF_FFFF && forall e :: e in es ==> EntryWritable(e)
  {
    hide EntryListBytes, EntryWritable;
    EntriesWrite(es);
  }

  predicate FileWritable(f: FileIn) {
    Fits16(|f.path|) && MetaWritable(f.meta)
  }

  predicate InnerInWritable(x: InnerIn) {
    && Fits16(|x.inner.path|)
    && (x.inner.kind == 0 ==> x.inner.method_ == 0 || x.inner.method_ == 8)
    && (x.inner.kind == 2 && x.inner.linkTarget.Some? ==> Fits16(|x.inner.linkTarget.value|))
  }

  predicate ZipWritable(z: ZipIn) {
    Fits16(|z.path|) && MetaWritable(z.meta) && Fits16(|z.inners|) && forall x :: x in z.inners ==> InnerInWritable(x)
  }

  /** The inputs fit the length fields of a container. */
  ghost predicate InputsWritable(inp: Inputs) {
    && |inp.files| + |inp.zips| + |inp.others| <= 0xFFFF_FFFF
    && (forall f :: f in inp.files ==> FileWritable(f)) && (forall z :: z in inp.zips ==> ZipWritable(z))
    && (forall e :: e in inp.others ==> EntryWritable(e))
  }

  lemma TopWrites(inp: Inputs, sh: Shelf, i: nat)
    requires AllLoadable(inp) && SameShelf(StartShelf(inp), sh) && i < |inp.files|
    ensures |sh.tops| == |inp.files| && (EntryWritable(sh.tops[i]) <==> FileWritable(inp.files[i]))
  {
    hide NormalizeForSolid, SameShelf, AllLoadable;
    ShelfLengths(inp, sh);
    TopEntry(inp, sh, i);
    FewRanges(inp.files[i].raw);
  }

  lemma InnerRowWrites(x: InnerIn, y: ZipInner)
    requires Loadable(x.raw) && SameInner(InnerEntry(x), y)
    ensures InnerWritable(y) <==> InnerInWritable(x) && (x.inner.kind == 0 || InnerWritable(x.inner))
  {
    hide NormalizeForSolid;
    FewRanges(x.raw);
  }

  lemma ZipWrites(inp: Inputs, sh: Shelf, i: nat)
    requires AllLoadable(inp) && SameShelf(StartShelf(inp), sh) && i < |inp.zips|
    ensures |sh.zips| == |inp.zips| && (EntryWritable(sh.zips[i]) <==> ZipWritable(inp.zips[i]))
  {
    hide NormalizeForSolid, SameShelf, AllLoadable, InnerEntry, SameInner;
    ShelfLengths(inp, sh);
    ZipEntryShape(inp, sh, i);
    var ys, xs := sh.zips[i].zipInners, inp.zips[i].inners;
    forall k | 0 <= k < |xs| ensures InnerWritable(ys[k]) <==> InnerInWritable(xs[k]) {
      InnerRowWrites(xs[k], ys[k]);
    }
    hide InnerWritable, InnerInWritable;
    if forall z :: z in ys ==> InnerWritable(z) {
      forall x | x in xs ensures InnerInWritable(x) {
        var k :| 0 <= k < |xs| && xs[k] == x;
        assert ys[k] in ys;
      }
    }
    if forall x :: x in xs ==> InnerInWritable(x) {
      forall z | z in ys ensures InnerWritable(z) {
        var k :| 0 <= k < |ys| && ys[k] == z;
        assert xs[k] in xs;
      }
    }
  }

  lemma ShelfWrites(inp: Inputs, sh: Shelf)
    requires AllLoadable(inp) && SameShelf(StartShelf(inp), sh)
    ensures var es := sh.tops + sh.zips + inp.others;
            |es| <= 0xFFFF_FFFF && (forall e :: e in es ==> EntryWritable(e)) <==> InputsWritable(inp)
  {
    hide SameShelf, AllLoadable, EntryWritable, FileWritable, ZipWritable;
    ShelfLengths(inp, sh);
    var es := sh.tops + sh.zips + inp.others;
    forall i | 0 <= i < |sh.tops| ensures EntryWritable(sh.tops[i]) <==> FileWritable(inp.files[i]) {
      TopWrites(inp, sh, i);
    }
    forall i | 0 <= i < |sh.zips| ensures EntryWritable(sh.zips[i]) <==> ZipWritable(inp.zips[i]) {
      ZipWrites(inp, sh, i);
    }
    if forall e :: e in es ==> EntryWritable(e) {
      forall f | f in inp.files ensures FileWritable(f) {
        var i :| 0 <= i < |inp.files| && inp.files[i] == f;
        assert sh.tops[i] in es;
      }
      forall z | z in inp.zips ensures ZipWritable(z) {
        var i :| 0 <= i < |inp.zips| && inp.zips[i] == z;
        assert sh.zips[i] in es;
      }
    }
  }

  // ---- When packing succeeds ----

  /** With a codec that encodes the solid, packing succeeds exactly for some inputs, not too large, that can be written. */
  lemma PackSucceeds(codec: Codec, lower: Text -> Text, inp: Inputs, level: nat, combos: seq<Combo>)
    requires Packable(lower, inp) && EncodesUpTo(codec, |Solid(lower, inp)|) && HasValidCombo(combos)
    ensures PackImage(codec, lower, inp, level, combos).Ok? <==>
              && |inp.files| + |inp.zips| + |inp.others| > 0 && |Solid(lower, inp)| <= 0xFFFF_FFFF && InputsWritable(inp)
  {
    hide Solid, Shelved, CompressImage, ContainerBytes, SameShelf, InputsWritable, EntryWritable, EncodesUpTo, HasValidCombo;
    var solid, sh := Solid(lower, inp), Shelved(lower, inp);
    var es := Entries(lower, inp);
    ShelfLengths(inp, sh) by { PlanStoresWell(lower, inp); }
    ShelfWrites(inp, sh) by { PlanStoresWell(lower, inp); }
    WholeFileFits(|solid|);
    TooLargeExact(codec, solid, WholeFile(|solid|), None, level, combos);
    if |solid| <= 0xFFFF_FFFF {
      CompressSucceeds(codec, solid, WholeFile(|solid|), None, level, combos);
      ContainerWrites(es, CompressImage(codec, solid, WholeFile(|solid|), None, level, combos).value);
    }
  }

  /** A file alone is packed exactly if it is not too large and its name and context can be written. */
  lemma PackSingleSucceeds(codec: Codec, name: Text, meta: FileMeta, data: seq<byte>, level: nat, combos: seq<Combo>)
    requires Loadable(data) && EncodesUpTo(codec, |data|) && HasValidCombo(combos)
    ensures SingleFileImage(codec, name, meta, data, level, combos).Ok? <==>
              |data| <= 0xFFFF_FFFF && Fits16(|name|) && MetaWritable(meta)
  {
    hide CompressImage, ContainerBytes, EncodesUpTo, HasValidCombo, BuildChunks;
    var l := BuildChunks(data);
    var e := SingleEntry(name, meta, |data|);
    TooLargeExact(codec, data, l.chunks, l.arch, level, combos);
    assert forall x :: x in [e] ==> x == e;
    assert e in [e] && (EntryWritable(e) <==> Fits16(|name|) && MetaWritable(meta));
    if |data| <= 0xFFFF_FFFF {
      CompressSucceeds(codec, data, l.chunks, l.arch, level, combos);
      ContainerWrites([e], CompressImage(codec, data, l.chunks, l.arch, level, combos).value);
    }
  }

  // ---- The table ----

  /** Metadata as it is read back: twelve bits of mode, and the all-ones owner taken for none. */
  predicate MetaKept(m: FileMeta, was: FileMeta) {
    && (m.mode.Some? <==> was.mode.Some?) && (was.mode.Some? ==> m.mode.value == was.mode.value % 0x1000)
    && m.uid == (if was.uid == Some(0xFFFF_FFFF) then None else was.uid)
    && m.gid == (if was.gid == Some(0xFFFF_FFFF) then None else was.gid)
    && m.context == was.context
  }

  /** The normalized file lies at the recorded place, under the recorded ranges. */
  predicate Holds(solid: seq<byte>, off: nat, size: nat, ranges: seq<CodeRange>, raw: seq<byte>)
    requires Loadable(raw)
  {
    var n := NormalizeForSolid(raw);
    size == |raw| && off + size <= |solid| && solid[off..off + size] == n.blob && ranges == n.ranges
  }

  predicate FileRow(e: PackEntry, f: FileIn, solid: seq<byte>) {
    && Loadable(f.raw) && e.kind == File && e.path == f.path && MetaKept(e.meta, f.meta) && e.linkTarget == None && e.zipInners == []
    && Holds(solid, e.solidOff, e.solidSize, e.codeRanges, f.raw)
  }

  /** The part of an inner entry that needs no contents. */
  predicate InnerKept(y: ZipInner, x: ZipInner) {
    && y.kind == x.kind && y.path == x.path && y.unixMode == x.unixMode && y.mtime == x.mtime
    && (x.kind == 0 ==> y.method_ == x.method_ && y.crc == x.crc && y.linkTarget == None)
    && (x.kind == 2 ==> y.linkTarget == Some(if x.linkTarget.Some? then x.linkTarget.value else []))
    && (x.kind != 0 && x.kind != 2 ==> y.linkTarget == None)
    && (x.kind != 0 ==> y.method_ == 0 && y.crc == 0 && y.codeRanges == [] && y.solidOff == 0 && y.solidSize == 0)
  }

  predicate InnerRow(y: ZipInner, x: InnerIn, solid: seq<byte>) {
    Loadable(x.raw) && InnerKept(y, x.inner) && (x.inner.kind == 0 ==> Holds(solid, y.solidOff, y.solidSize, y.codeRanges, x.raw))
  }

  predicate ZipRow(e: PackEntry, z: ZipIn, solid: seq<byte>) {
    && e.kind == Zip && e.path == z.path && MetaKept(e.meta, z.meta) && e.linkTarget == None
    && e.codeRanges == [] && e.solidOff == 0 && e.solidSize == 0
    && |e.zipInners| == |z.inners|
    && forall i :: 0 <= i < |z.inners| ==> InnerRow(e.zipInners[i], z.inners[i], solid)
  }

  /** Directories, links with their targets, and zips without contents. */
  predicate OtherRow(e: PackEntry, o: PackEntry) {
    && e.kind == o.kind && e.path == o.path && MetaKept(e.meta, o.meta)
    && (o.kind == Link ==> e.linkTarget == Some(if o.linkTarget.Some? then o.linkTarget.value else []))
    && (o.kind != Link ==> e.linkTarget == None)
    && (o.kind != File ==> e.codeRanges == [] && e.solidOff == 0 && e.solidSize == 0)
    && (if o.kind == Zip
        then |e.zipInners| == |o.zipInners| && forall i :: 0 <= i < |o.zipInners| ==> InnerKept(e.zipInners[i], o.zipInners[i])
        else e.zipInners == [])
  }

  predicate FileRows(es: seq<PackEntry>, fs: seq<FileIn>, solid: seq<byte>) {
    |es| == |fs| && forall i :: 0 <= i < |fs| ==> FileRow(es[i], fs[i], solid)
  }

  predicate ZipRows(es: seq<PackEntry>, zs: seq<ZipIn>, solid: seq<byte>) {
    && |es| == |zs|
    && forall i :: 0 <= i < |zs| ==> ZipRow(es[i], zs[i], solid)
  }

  predicate OtherRows(es: seq<PackEntry>, os: seq<PackEntry>) {
    |es| == |os| && forall i :: 0 <= i < |os| ==> OtherRow(es[i], os[i])
  }

  /** The entries are the files, the zips and the others, in this order and each in input order. */
  predicate TableOf(es: seq<PackEntry>, inp: Inputs, solid: seq<byte>) {
    var f, z := |inp.files|, |inp.files| + |inp.zips|;
    && z <= |es|
    && FileRows(es[..f], inp.files, solid) && ZipRows(es[f..z], inp.zips, solid) && OtherRows(es[z..], inp.others)
  }

  lemma CanonMetaKept(m: FileMeta)
    ensures MetaKept(CanonMeta(m), m)
  {
  }

  lemma CanonInnerKept(y: ZipInner)
    requires y.kind <= 2
    ensures InnerKept(CanonInner(y), y)
  {
  }

  lemma PlaceHolds(lower: Text -> Text, inp: Inputs, b: Back)
    requires Packable(lower, inp) && IsFileBack(inp, b)
    ensures BackOk(b, Shelved(lower, inp)) && Loadable(RawAt(inp, b))
    ensures var s := StoredIn(inp, Shelved(lower, inp), b); Holds(Solid(lower, inp), s.off, s.size, s.ranges, RawAt(inp, b))
  {
    hide NormalizeForSolid, SlotOf, Lay, Faithful, Owned, Placed, Shelved, Ordered, AllLoadable, RawAt, PlaceAt, BackOk;
    var k := FindItem(lower, inp, b);
    SlotInSolid(Blobs(Ordered(lower, inp)), k);
  }

  lemma FileRowOf(lower: Text -> Text, inp: Inputs, i: nat)
    requires Packable(lower, inp) && SameShelf(StartShelf(inp), Shelved(lower, inp)) && i < |inp.files|
    ensures |Shelved(lower, inp).tops| == |inp.files|
    ensures FileRow(CanonEntry(Shelved(lower, inp).tops[i]), inp.files[i], Solid(lower, inp))
  {
    hide NormalizeForSolid, SameShelf, Solid, Shelved, CanonMeta, MetaKept, StoredIn, AllLoadable, Holds;
    var sh := Shelved(lower, inp);
    ShelfLengths(inp, sh);
    TopEntry(inp, sh, i);
    PlaceHolds(lower, inp, Top(i));
    CanonMetaKept(inp.files[i].meta);
  }

  lemma InnerEntryKept(x: InnerIn, y: ZipInner)
    requires Loadable(x.raw) && SameInner(InnerEntry(x), y) && x.inner.kind <= 2
    ensures InnerKept(CanonInner(y), x.inner)
  {
    hide NormalizeForSolid;
  }

  lemma InnerRowOf(lower: Text -> Text, inp: Inputs, zi: nat, ii: nat, y: ZipInner)
    requires Packable(lower, inp) && SameShelf(StartShelf(inp), Shelved(lower, inp))
    requires zi < |inp.zips| && ii < |inp.zips[zi].inners| && inp.zips[zi].inners[ii].inner.kind <= 2
    requires zi < |Shelved(lower, inp).zips| && ii < |Shelved(lower, inp).zips[zi].zipInners|
    requires y == Shelved(lower, inp).zips[zi].zipInners[ii]
    ensures InnerRow(CanonInner(y), inp.zips[zi].inners[ii], Solid(lower, inp))
  {
    hide NormalizeForSolid, SameShelf, Solid, Shelved, AllLoadable, StoredIn, Holds;
    var sh := Shelved(lower, inp);
    var x := inp.zips[zi].inners[ii];
    ZipEntryShape(inp, sh, zi);
    assert SameInner(InnerEntry(x), y);
    InnerEntryKept(x, y);
    hide SameInner, InnerEntry, InnerKept;
    if x.inner.kind == ZIP_FILE {
      ZipInnerStored(inp, sh, zi, ii);
      PlaceHolds(lower, inp, Inner(zi, ii));
    }
  }

  lemma ZipRowOf(lower: Text -> Text, inp: Inputs, zi: nat)
    requires Packable(lower, inp) && SameShelf(StartShelf(inp), Shelved(lower, inp)) && InputsOk(inp) && zi < |inp.zips|
    ensures |Shelved(lower, inp).zips| == |inp.zips|
    ensures ZipRow(CanonEntry(Shelved(lower, inp).zips[zi]), inp.zips[zi], Solid(lower, inp))
  {
    hide NormalizeForSolid, SameShelf, Solid, Shelved, AllLoadable, CanonMeta, MetaKept, CanonInner, InnerRow, InnerEntry, SameInner;
    var sh := Shelved(lower, inp);
    var z := inp.zips[zi];
    ShelfLengths(inp, sh);
    ZipEntryShape(inp, sh, zi);
    CanonMetaKept(z.meta);
    assert z in inp.zips;
    var e := CanonEntry(sh.zips[zi]);
    forall ii | 0 <= ii < |z.inners| ensures InnerRow(e.zipInners[ii], z.inners[ii], Solid(lower, inp)) {
      InnerRowOf(lower, inp, zi, ii, sh.zips[zi].zipInners[ii]);
    }
  }

  lemma OtherRowOf(e: PackEntry)
    requires EntryOk(e)
    ensures OtherRow(CanonEntry(e), e)
  {
    hide CanonMeta, MetaKept, CanonInner, InnerKept;
    CanonMetaKept(e.meta);
    if e.kind == Zip {
      forall i | 0 <= i < |e.zipInners| ensures InnerKept(CanonEntry(e).zipInners[i], e.zipInners[i]) {
        assert e.zipInners[i] in e.zipInners;
        CanonInnerKept(e.zipInners[i]);
      }
    }
  }

  lemma {:induction false} CanonConcat(a: seq<PackEntry>, b: seq<PackEntry>)
    ensures CanonEntries(a + b) == CanonEntries(a) + CanonEntries(b)
  {
    hide CanonEntry;
  }

  lemma ThreeParts<T>(a: seq<T>, b: seq<T>, c: seq<T>)
    ensures var s := a + b + c; s[..|a|] == a && s[|a|..|a| + |b|] == b && s[|a| + |b|..] == c
  {
  }

  lemma RowsMakeTable(tops: seq<PackEntry>, zips: seq<PackEntry>, inp: Inputs, solid: seq<byte>)
    requires FileRows(CanonEntries(tops), inp.files, solid) && ZipRows(CanonEntries(zips), inp.zips, solid)
    requires OtherRows(CanonEntries(inp.others), inp.others)
    ensures TableOf(CanonEntries(tops + zips + inp.others), inp, solid)
  {
    hide FileRow, ZipRow, OtherRow, CanonEntry;
    CanonConcat(tops + zips, inp.others);
    CanonConcat(tops, zips);
    ThreeParts(CanonEntries(tops), CanonEntries(zips), CanonEntries(inp.others));
  }

  lemma AllFileRows(lower: Text -> Text, inp: Inputs)
    requires Packable(lower, inp) && SameShelf(StartShelf(inp), Shelved(lower, inp))
    ensures FileRows(CanonEntries(Shelved(lower, inp).tops), inp.files, Solid(lower, inp))
  {
    hide Solid, Shelved, SameShelf, FileRow, CanonEntry, AllLoadable;
    ShelfLengths(inp, Shelved(lower, inp));
    forall i | 0 <= i < |inp.files|
      ensures FileRow(CanonEntry(Shelved(lower, inp).tops[i]), inp.files[i], Solid(lower, inp))
    {
      FileRowOf(lower, inp, i);
    }
  }

  lemma AllZipRows(lower: Text -> Text, inp: Inputs)
    requires Packable(lower, inp) && SameShelf(StartShelf(inp), Shelved(lower, inp)) && InputsOk(inp)
    ensures ZipRows(CanonEntries(Shelved(lower, inp).zips), inp.zips, Solid(lower, inp))
  {
    hide Solid, Shelved, SameShelf, ZipRow, CanonEntry, AllLoadable, InputsOk;
    ShelfLengths(inp, Shelved(lower, inp));
    forall i | 0 <= i < |inp.zips|
      ensures ZipRow(CanonEntry(Shelved(lower, inp).zips[i]), inp.zips[i], Solid(lower, inp))
    {
      ZipRowOf(lower, inp, i);
    }
  }

  lemma EntriesAreTable(lower: Text -> Text, inp: Inputs)
    requires Packable(lower, inp) && InputsOk(inp)
    ensures TableOf(CanonEntries(Entries(lower, inp)), inp, Solid(lower, inp))
  {
    hide Solid, Shelved, SameShelf, FileRows, ZipRows, OtherRow, CanonEntry, InputsOk, WellStored, AllLoadable, TableOf;
    PlanStoresWell(lower, inp);
    AllFileRows(lower, inp);
    AllZipRows(lower, inp);
    forall i | 0 <= i < |inp.others| ensures OtherRow(CanonEntry(inp.others[i]), inp.others[i]) {
      OtherKept(inp, i);
    }
    RowsMakeTable(Shelved(lower, inp).tops, Shelved(lower, inp).zips, inp, Solid(lower, inp));
  }

  lemma OtherKept(inp: Inputs, i: nat)
    requires InputsOk(inp) && i < |inp.others|
    ensures OtherRow(CanonEntry(inp.others[i]), inp.others[i])
  {
    hide OtherRow, CanonEntry, EntryOk;
    assert inp.others[i] in inp.others;
    OtherRowOf(inp.others[i]);
  }

  /**
   * What a packed image says: its table lists every file, zip and other entry with all that was recorded of it,
   * and its payload decodes to a solid that holds every file at the place the table gives.
   */
  lemma PackedImageSays(codec: Codec, utf8: Utf8, lower: Text -> Text, inp: Inputs, level: nat, combos: seq<Combo>)
    requires Packable(lower, inp) && InputTexts(utf8, inp) && InputsOk(inp)
    requires PackImage(codec, lower, inp, level, combos).Ok?
    ensures var c := ParseContainer(utf8, PackImage(codec, lower, inp, level, combos).value);
            && c.Ok? && TableOf(c.value.entries, inp, Solid(lower, inp))
            && DecompressBytes(codec, c.value.solid) == UpToCap(Solid(lower, inp))
  {
    hide Solid, Shelved, CompressImage, ContainerBytes, ParseContainer, DecompressBytes, WellStored, SameShelf, InputsOk,
         InputTexts, ParserAccepts, EntriesTexts, TableOf, UpToCap;
    var solid, sh := Solid(lower, inp), Shelved(lower, inp);
    var chunks := WholeFile(|solid|);
    OpaqueRoundTrip(codec, solid, level, combos);
    var ucomp := CompressImage(codec, solid, chunks, None, level, combos).value;
    ImageFits(codec, solid, chunks, None, level, combos);
    PlanStoresWell(lower, inp);
    ShelfEntriesOk(utf8, inp, sh);
    ContainerBack(utf8, Entries(lower, inp), ucomp);
    EntriesAreTable(lower, inp);
  }

  /** What the image of a file packed alone says: its name, its metadata, no ranges, its size, and its UCOMP01 image. */
  lemma SingleImageSays(codec: Codec, utf8: Utf8, name: Text, meta: FileMeta, data: seq<byte>, level: nat, combos: seq<Combo>)
    requires Loadable(data) && utf8([]) && utf8(name) && MetaTexts(utf8, meta)
    requires SingleFileImage(codec, name, meta, data, level, combos).Ok?
    ensures var l := BuildChunks(data);
            var c := ParseContainer(utf8, SingleFileImage(codec, name, meta, data, level, combos).value);
            && (c.Ok? <==> name != [])
            && (c.Ok? ==>
                  && |c.value.entries| == 1 && CompressImage(codec, data, l.chunks, l.arch, level, combos) == Ok(c.value.solid)
                  && var e := c.value.entries[0];
                     && e.kind == File && e.path == name && MetaKept(e.meta, meta) && e.linkTarget == None && e.zipInners == []
                     && e.codeRanges == [] && e.solidOff == 0 && e.solidSize == |data|)
  {
    hide CompressImage, ContainerBytes, ParseContainer, BuildChunks, MetaTexts, CanonMeta, MetaKept;
    var l, es := BuildChunks(data), [SingleEntry(name, meta, |data|)];
    FewChunks(data);
    ImageFits(codec, data, l.chunks, l.arch, level, combos);
    assert es[0] in es && (forall e :: e in es ==> e == es[0]);
    ContainerBack(utf8, es, CompressImage(codec, data, l.chunks, l.arch, level, combos).value);
    CanonMetaKept(meta);
  }
}

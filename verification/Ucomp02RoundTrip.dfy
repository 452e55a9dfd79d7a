/** UCOMP02 end to end: what is packed comes back, byte for byte and path for path. */
module Ucomp02RoundTrip {
  import opened Bytes
  import opened Lzma
  import Format
  import opened Decompress
  import opened CodeSections
  import opened Transforms
  import opened Chunking
  import opened Compress
  import opened Ucomp01
  import opened EncoderLaws
  import opened ContainerFormat
  import opened ContainerRoundTrip
  import opened Unpacking
  import opened Cluster
  import opened SolidLayout
  import opened Packing
  import opened Ucomp02
  import opened Selection
  import opened Sorting
  import Elf

  // ---- Where every file is ----

  /** The place and ranges that the entries on shelf `sh` record for the file at `b`. */
  function StoredIn(inp: Inputs, sh: Shelf, b: Back): Stored
    requires AllLoadable(inp) && IsFileBack(inp, b) && BackOk(b, sh)
  {
    RawLoadable(inp, b);
    var slot := PlaceAt(sh, b);
    Stored(slot.off, slot.size, NormalizeForSolid(RawAt(inp, b)).ranges)
  }

  /** What the code makes of the file at `b`. */
  function RestoredAt(inp: Inputs, b: Back): seq<byte>
    requires AllLoadable(inp) && IsFileBack(inp, b)
  {
    RawLoadable(inp, b);
    Restored(RawAt(inp, b))
  }

  /** Every file comes out of its own place as its own ranges restore it, and no two files share a byte. */
  ghost predicate WellStored(inp: Inputs, solid: seq<byte>, sh: Shelf) {
    && AllLoadable(inp)
    && (forall b :: IsFileBack(inp, b) ==> BackOk(b, sh) && ExtractFile(solid, StoredIn(inp, sh, b)) == Ok(RestoredAt(inp, b)))
    && (forall b, c :: IsFileBack(inp, b) && IsFileBack(inp, c) && b != c ==> StoredApart(StoredIn(inp, sh, b), StoredIn(inp, sh, c)))
  }

  /** The position in the clustered pool of the file at `b`. */
  lemma FindItem(lower: Text -> Text, inp: Inputs, b: Back) returns (k: nat)
    requires Packable(lower, inp) && IsFileBack(inp, b)
    ensures var pool := Ordered(lower, inp);
            && k < |pool| && pool[k].back == b && Loadable(RawAt(inp, b))
            && pool[k].blob == NormalizeForSolid(RawAt(inp, b)).blob
            && BackOk(b, Shelved(lower, inp)) && PlaceAt(Shelved(lower, inp), b) == SlotOf(Blobs(pool), k)
  {
    hide NormalizeForSolid, SlotOf;
    var pool := Ordered(lower, inp);
    RawLoadable(inp, b);
    assert HasBack(pool, b);
    var x :| x in pool && x.back == b;
    k :| 0 <= k < |pool| && pool[k] == x;
  }

  lemma SliceComesBack(solid: seq<byte>, s: Slot, blob: seq<byte>, rs: seq<CodeRange>, plain: seq<byte>)
    requires s.End() <= |solid| && solid[s.off..s.End()] == blob && DenormalizeFile(blob, rs) == Ok(plain)
    ensures ExtractFile(solid, Stored(s.off, s.size, rs)) == Ok(plain)
  {
    hide DenormalizeFile;
  }

  lemma FileComesBack(lower: Text -> Text, inp: Inputs, b: Back)
    requires Packable(lower, inp) && IsFileBack(inp, b)
    ensures BackOk(b, Shelved(lower, inp))
    ensures ExtractFile(Solid(lower, inp), StoredIn(inp, Shelved(lower, inp), b)) == Ok(RestoredAt(inp, b))
  {
    hide NormalizeForSolid, SlotOf, Lay, DenormalizeFile, ExtractFile, Faithful, Owned, Placed, Shelved, Ordered, AllLoadable,
         CodeOrderFree, RawAt, PlaceAt, BackOk;
    var k := FindItem(lower, inp, b);
    var pool, n := Ordered(lower, inp), NormalizeForSolid(RawAt(inp, b));
    SlotInSolid(Blobs(pool), k);
    SliceComesBack(Solid(lower, inp), SlotOf(Blobs(pool), k), n.blob, n.ranges, RestoredAt(inp, b));
  }

  lemma FilesApart(lower: Text -> Text, inp: Inputs, b: Back, c: Back)
    requires Packable(lower, inp) && IsFileBack(inp, b) && IsFileBack(inp, c) && b != c
    ensures BackOk(b, Shelved(lower, inp)) && BackOk(c, Shelved(lower, inp))
    ensures StoredApart(StoredIn(inp, Shelved(lower, inp), b), StoredIn(inp, Shelved(lower, inp), c))
  {
    hide NormalizeForSolid, SlotOf, Faithful, Owned, Placed, Shelved, Ordered, AllLoadable, RawAt, PlaceAt, BackOk;
    var k := FindItem(lower, inp, b);
    var l := FindItem(lower, inp, c);
    if k < l {
      SlotsInOrder(Blobs(Ordered(lower, inp)), k, l);
    } else {
      SlotsInOrder(Blobs(Ordered(lower, inp)), l, k);
    }
  }

  /** Normalized, clustered and laid out, with the places scattered back: nothing is lost, and nothing else is written. */
  lemma PlanStoresWell(lower: Text -> Text, inp: Inputs)
    requires Packable(lower, inp)
    ensures WellStored(inp, Solid(lower, inp), Shelved(lower, inp)) && SameShelf(StartShelf(inp), Shelved(lower, inp))
  {
    hide Solid, Shelved, StoredIn, ExtractFile, IsFileBack, RestoredAt, BackOk, AllLoadable, SameShelf, NormalizeForSolid;
    forall b | IsFileBack(inp, b)
      ensures BackOk(b, Shelved(lower, inp))
              && ExtractFile(Solid(lower, inp), StoredIn(inp, Shelved(lower, inp), b)) == Ok(RestoredAt(inp, b))
    {
      FileComesBack(lower, inp, b);
    }
    forall b, c | IsFileBack(inp, b) && IsFileBack(inp, c) && b != c
      ensures StoredApart(StoredIn(inp, Shelved(lower, inp), b), StoredIn(inp, Shelved(lower, inp), c))
    {
      FilesApart(lower, inp, b, c);
    }
  }

  // ---- Taking files out in place ----

  lemma {:induction false} ExtractAllOk(solid: seq<byte>, fs: seq<Stored>, raws: seq<seq<byte>>)
    requires |fs| == |raws| && forall j :: 0 <= j < |fs| ==> ExtractFile(solid, fs[j]) == Ok(raws[j])
    ensures ExtractAll(solid, fs) == Ok(raws)
  {
    hide ExtractFile;
    if fs != [] {
      ExtractAllOk(solid, fs[1..], raws[1..]);
      assert raws == [raws[0]] + raws[1..];
    }
  }

  /** Distinct top-level files. */
  predicate Order(inp: Inputs, order: seq<nat>) {
    && (forall j :: 0 <= j < |order| ==> order[j] < |inp.files|)
    && (forall i, j :: 0 <= i < j < |order| ==> order[i] != order[j])
  }

  /** In whatever order, each file unpacked in place is what its own ranges restore, and the inner files of zips stay intact. */
  lemma AnyOrder(inp: Inputs, solid: seq<byte>, sh: Shelf, order: seq<nat>, fs: seq<Stored>)
    requires WellStored(inp, solid, sh) && Order(inp, order)
    requires |fs| == |order| && forall j :: 0 <= j < |order| ==> BackOk(Top(order[j]), sh) && fs[j] == StoredIn(inp, sh, Top(order[j]))
    ensures var u := UnpackInPlace(solid, fs);
            && u.Ok? && |u.value.0| == |order|
            && (forall j :: 0 <= j < |order| ==> u.value.0[j] == RestoredAt(inp, Top(order[j])))
            && (forall zi, ii :: IsFileBack(inp, Inner(zi, ii)) ==>
                  ExtractFile(u.value.1, StoredIn(inp, sh, Inner(zi, ii))) == Ok(RestoredAt(inp, Inner(zi, ii))))
  {
    hide StoredIn, ExtractFile, UnpackInPlace, AllLoadable, StoredApart, BackOk, RestoredAt;
    forall i, j | 0 <= i < j < |fs| ensures StoredApart(fs[i], fs[j]) {
      assert Top(order[i]) != Top(order[j]);
    }
    InPlaceIsExtract(solid, fs);
    var raws := seq(|order|, j requires 0 <= j < |order| => RestoredAt(inp, Top(order[j])));
    forall j | 0 <= j < |fs| ensures ExtractFile(solid, fs[j]) == Ok(raws[j]) {
      assert IsFileBack(inp, Top(order[j]));
    }
    ExtractAllOk(solid, fs, raws);
    var u := UnpackInPlace(solid, fs).value;
    forall zi, ii | IsFileBack(inp, Inner(zi, ii))
      ensures ExtractFile(u.1, StoredIn(inp, sh, Inner(zi, ii))) == Ok(RestoredAt(inp, Inner(zi, ii)))
    {
      InPlaceFrame(solid, fs, StoredIn(inp, sh, Inner(zi, ii)));
    }
  }

  // ---- From entries to files ----

  lemma {:induction false} CanonFiles(es: seq<PackEntry>)
    ensures StoredFiles(CanonEntries(es)) == StoredFiles(es) && FilePaths(CanonEntries(es)) == FilePaths(es)
  {
    if es != [] {
      CanonFiles(es[1..]);
      assert CanonEntries(es)[1..] == CanonEntries(es[1..]);
    }
  }

  lemma {:induction false} CanonInnerFiles(solid: seq<byte>, zs: seq<ZipInner>)
    ensures RebuildInners(solid, CanonInners(zs)) == RebuildInners(solid, zs)
    decreases zs
  {
    hide ExtractFile;
    if zs != [] {
      CanonInnerFiles(solid, zs[1..]);
      assert CanonInners(zs)[1..] == CanonInners(zs[1..]);
    }
  }

  lemma {:induction false} CanonZips(solid: seq<byte>, es: seq<PackEntry>)
    ensures RebuildZips(solid, CanonEntries(es)) == RebuildZips(solid, es)
    decreases es
  {
    hide RebuildInners;
    if es != [] {
      CanonZips(solid, es[1..]);
      assert CanonEntries(es)[1..] == CanonEntries(es[1..]);
      CanonInnerFiles(solid, es[0].zipInners);
    }
  }

  lemma {:induction false} FilesConcat(a: seq<PackEntry>, b: seq<PackEntry>)
    ensures StoredFiles(a + b) == StoredFiles(a) + StoredFiles(b)
  {
    hide StoredOf;
    if a == [] {
      assert a + b == b;
    } else {
      assert (a + b)[1..] == a[1..] + b;
      FilesConcat(a[1..], b);
      var first := if a[0].kind == File then [StoredOf(a[0])] else [];
      var rest, more := StoredFiles(a[1..]), StoredFiles(b);
      assert first + (rest + more) == (first + rest) + more;
    }
  }

  lemma {:induction false} PathsConcat(a: seq<PackEntry>, b: seq<PackEntry>)
    ensures FilePaths(a + b) == FilePaths(a) + FilePaths(b)
  {
    if a == [] {
      assert a + b == b;
    } else {
      assert (a + b)[1..] == a[1..] + b;
      PathsConcat(a[1..], b);
    }
  }

  lemma {:induction false} ZipsConcat(solid: seq<byte>, a: seq<PackEntry>, b: seq<PackEntry>, zs: seq<RebuiltZip>)
    requires RebuildZips(solid, a) == Ok(zs)
    ensures RebuildZips(solid, a + b) == Prepend(zs, RebuildZips(solid, b))
    decreases a
  {
    hide RebuildInners;
    if a == [] {
      assert a + b == b;
      PrependNothing(RebuildZips(solid, b));
    } else {
      assert (a + b)[1..] == a[1..] + b;
      if a[0].kind != Zip {
        ZipsConcat(solid, a[1..], b, zs);
      } else {
        var first := RebuiltZip(a[0].path, RebuildInners(solid, a[0].zipInners).value);
        var rest := RebuildZips(solid, a[1..]).value;
        ZipsConcat(solid, a[1..], b, rest);
        PrependAssociative([first], rest, RebuildZips(solid, b));
      }
    }
  }

  /** Entries that are all files. */
  lemma {:induction false} OnlyFiles(solid: seq<byte>, es: seq<PackEntry>)
    requires forall e :: e in es ==> e.kind == File
    ensures |StoredFiles(es)| == |FilePaths(es)| == |es| && RebuildZips(solid, es) == Ok([])
    ensures forall i :: 0 <= i < |es| ==> StoredFiles(es)[i] == StoredOf(es[i]) && FilePaths(es)[i] == es[i].path
    decreases es
  {
    hide RebuildInners;
    if es != [] {
      OnlyFiles(solid, es[1..]);
    }
  }

  lemma {:induction false} NoFiles(es: seq<PackEntry>)
    requires forall e :: e in es ==> e.kind != File
    ensures StoredFiles(es) == [] && FilePaths(es) == []
  {
    if es != [] {
      NoFiles(es[1..]);
    }
  }

  lemma {:induction false} AllZips(solid: seq<byte>, es: seq<PackEntry>, zs: seq<RebuiltZip>)
    requires |zs| == |es|
    requires forall i :: 0 <= i < |es| ==>
               es[i].kind == Zip && es[i].path == zs[i].path && RebuildInners(solid, es[i].zipInners) == Ok(zs[i].files)
    ensures RebuildZips(solid, es) == Ok(zs)
    decreases es
  {
    hide RebuildInners;
    if es != [] {
      AllZips(solid, es[1..], zs[1..]);
      assert zs == [zs[0]] + zs[1..];
    }
  }

  // ---- What should come back ----

  function InnerFiles(xs: seq<InnerIn>): seq<InnerFile> {
    if xs == [] then []
    else (if xs[0].inner.kind == ZIP_FILE then [InnerFile(xs[0].inner.path, xs[0].raw)] else []) + InnerFiles(xs[1..])
  }

  /** Zips without inner files are rebuilt too. */
  function EmptyZips(es: seq<PackEntry>): seq<RebuiltZip> {
    if es == [] then [] else (if es[0].kind == Zip then [RebuiltZip(es[0].path, [])] else []) + EmptyZips(es[1..])
  }

  function PackedZips(inp: Inputs): (zs: seq<RebuiltZip>)
    ensures |zs| == |inp.zips| && forall i :: 0 <= i < |zs| ==> zs[i] == RebuiltZip(inp.zips[i].path, InnerFiles(inp.zips[i].inners))
  {
    seq(|inp.zips|, i requires 0 <= i < |inp.zips| => RebuiltZip(inp.zips[i].path, InnerFiles(inp.zips[i].inners)))
  }

  /** Every file under its own path with its own bytes, and every zip with its inner files. */
  function TreeOf(inp: Inputs): Tree {
    Tree(seq(|inp.files|, i requires 0 <= i < |inp.files| => inp.files[i].path),
         seq(|inp.files|, i requires 0 <= i < |inp.files| => inp.files[i].raw),
         PackedZips(inp) + EmptyZips(inp.others))
  }

  function RestoredInners(xs: seq<InnerIn>): (ys: seq<InnerIn>)
    requires forall x :: x in xs ==> Loadable(x.raw)
    ensures |ys| == |xs| && forall i :: 0 <= i < |xs| ==>
              Loadable(xs[i].raw) && ys[i] == if xs[i].inner.kind == ZIP_FILE then xs[i].(raw := Restored(xs[i].raw)) else xs[i]
  {
    seq(|xs|, i requires 0 <= i < |xs| && Loadable(xs[i].raw) =>
      if xs[i].inner.kind == ZIP_FILE then xs[i].(raw := Restored(xs[i].raw)) else xs[i])
  }

  /** The same inputs with every file as it is restored. */
  ghost function RestoredInputs(inp: Inputs): (r: Inputs)
    requires AllLoadable(inp)
    ensures |r.files| == |inp.files| && |r.zips| == |inp.zips| && r.others == inp.others
    ensures forall i :: 0 <= i < |inp.files| ==>
              Loadable(inp.files[i].raw) && r.files[i] == inp.files[i].(raw := Restored(inp.files[i].raw))
    ensures forall i :: 0 <= i < |inp.zips| ==>
              && (forall x :: x in inp.zips[i].inners ==> Loadable(x.raw))
              && r.zips[i] == inp.zips[i].(inners := RestoredInners(inp.zips[i].inners))
  {
    Inputs(seq(|inp.files|, i requires 0 <= i < |inp.files| && inp.files[i] in inp.files =>
             inp.files[i].(raw := Restored(inp.files[i].raw))),
           seq(|inp.zips|, i requires 0 <= i < |inp.zips| && inp.zips[i] in inp.zips =>
             inp.zips[i].(inners := RestoredInners(inp.zips[i].inners))),
           inp.others)
  }

  /** In every packed file the order of the code sections does not matter. */
  ghost predicate AllOrderFree(inp: Inputs) {
    forall b :: IsFileBack(inp, b) ==> CodeOrderFree(RawAt(inp, b))
  }

  /** In every packed file the code ranges do not overlap. */
  ghost predicate AllCodeApart(inp: Inputs) {
    forall b :: IsFileBack(inp, b) ==> CodeApart(RawAt(inp, b))
  }

  lemma OrderFreeInputs(inp: Inputs)
    requires AllLoadable(inp) && AllOrderFree(inp)
    ensures RestoredInputs(inp) == inp
  {
    hide CodeOrderFree, NormalizeForSolid, DenormalizeFile;
    var r := RestoredInputs(inp);
    forall i | 0 <= i < |inp.files| ensures r.files[i] == inp.files[i] {
      assert IsFileBack(inp, Top(i)) && RawAt(inp, Top(i)) == inp.files[i].raw;
    }
    forall zi | 0 <= zi < |inp.zips| ensures r.zips[zi] == inp.zips[zi] {
      var xs := inp.zips[zi].inners;
      forall ii | 0 <= ii < |xs| ensures RestoredInners(xs)[ii] == xs[ii] {
        if xs[ii].inner.kind == ZIP_FILE {
          assert IsFileBack(inp, Inner(zi, ii)) && RawAt(inp, Inner(zi, ii)) == xs[ii].raw;
        }
      }
      assert RestoredInners(xs) == xs;
    }
    assert r.files == inp.files && r.zips == inp.zips;
  }

  lemma {:induction false} SameInnerFiles(xs: seq<InnerIn>, ys: seq<InnerIn>, i: nat)
    requires |xs| == |ys| && (forall k :: 0 <= k < |xs| ==> xs[k].inner == ys[k].inner) && InnerFiles(xs) == InnerFiles(ys)
    requires i < |xs| && xs[i].inner.kind == ZIP_FILE
    ensures xs[i].raw == ys[i].raw
  {
    if xs[0].inner.kind == ZIP_FILE {
      assert InnerFiles(xs)[0] == InnerFile(xs[0].inner.path, xs[0].raw) && InnerFiles(ys)[0] == InnerFile(ys[0].inner.path, ys[0].raw);
      assert InnerFiles(xs)[1..] == InnerFiles(xs[1..]) && InnerFiles(ys)[1..] == InnerFiles(ys[1..]);
    } else {
      assert [] + InnerFiles(xs[1..]) == InnerFiles(xs[1..]) && [] + InnerFiles(ys[1..]) == InnerFiles(ys[1..]);
    }
    if i > 0 {
      SameInnerFiles(xs[1..], ys[1..], i - 1);
    }
  }

  lemma SameTreeSameFile(inp: Inputs, b: Back)
    requires AllLoadable(inp) && TreeOf(RestoredInputs(inp)) == TreeOf(inp) && IsFileBack(inp, b)
    ensures RestoredAt(inp, b) == RawAt(inp, b)
  {
    hide CodeOrderFree, NormalizeForSolid, DenormalizeFile, InnerFiles, EmptyZips;
    var r := RestoredInputs(inp);
    match b
    case Top(i) =>
      assert TreeOf(r).files[i] == r.files[i].raw && TreeOf(inp).files[i] == inp.files[i].raw;
    case Inner(zi, ii) =>
      assert TreeOf(r).zips[zi] == PackedZips(r)[zi] && TreeOf(inp).zips[zi] == PackedZips(inp)[zi];
      SameInnerFiles(inp.zips[zi].inners, r.zips[zi].inners, ii);
  }

  /** The restored tree is the packed one exactly when in every file the order of the code sections does not matter. */
  lemma RestoredTreeExact(inp: Inputs)
    requires AllLoadable(inp)
    ensures TreeOf(RestoredInputs(inp)) == TreeOf(inp) <==> AllOrderFree(inp)
  {
    hide CodeOrderFree, NormalizeForSolid, DenormalizeFile, TreeOf;
    if AllOrderFree(inp) {
      OrderFreeInputs(inp);
    }
    if TreeOf(RestoredInputs(inp)) == TreeOf(inp) {
      forall b | IsFileBack(inp, b) ensures CodeOrderFree(RawAt(inp, b)) {
        SameTreeSameFile(inp, b);
        RawLoadable(inp, b);
      }
    }
  }

  /** The packer sorts files and zips with inner files out of the rest. */
  ghost predicate OthersHoldNothing(inp: Inputs) {
    forall e :: e in inp.others ==> e.kind != File && forall z :: z in e.zipInners ==> z.kind != ZIP_FILE
  }

  lemma {:induction false} InnersRebuilt(solid: seq<byte>, zs: seq<ZipInner>, xs: seq<InnerIn>)
    requires |zs| == |xs|
    requires forall i :: 0 <= i < |xs| ==>
               zs[i].kind == xs[i].inner.kind && zs[i].path == xs[i].inner.path
               && (zs[i].kind == ZIP_FILE ==> ExtractFile(solid, StoredInner(zs[i])) == Ok(xs[i].raw))
    ensures RebuildInners(solid, zs) == Ok(InnerFiles(xs))
    decreases zs
  {
    hide ExtractFile;
    if zs != [] {
      InnersRebuilt(solid, zs[1..], xs[1..]);
      assert [] + InnerFiles(xs[1..]) == InnerFiles(xs[1..]);
    }
  }

  lemma {:induction false} NothingInside(solid: seq<byte>, zs: seq<ZipInner>)
    requires forall z :: z in zs ==> z.kind != ZIP_FILE
    ensures RebuildInners(solid, zs) == Ok([])
    decreases zs
  {
    hide ExtractFile;
    if zs != [] {
      NothingInside(solid, zs[1..]);
    }
  }

  lemma {:induction false} OthersRebuilt(solid: seq<byte>, es: seq<PackEntry>)
    requires forall e :: e in es ==> forall z :: z in e.zipInners ==> z.kind != ZIP_FILE
    ensures RebuildZips(solid, es) == Ok(EmptyZips(es))
    decreases es
  {
    hide RebuildInners;
    if es != [] {
      OthersRebuilt(solid, es[1..]);
      NothingInside(solid, es[0].zipInners);
      assert [] + EmptyZips(es[1..]) == EmptyZips(es[1..]);
    }
  }

  // ---- The entries on the shelf ----

  /** What a top-level entry looks like once it has its place. */
  lemma TopEntry(inp: Inputs, sh: Shelf, i: nat)
    requires AllLoadable(inp) && SameShelf(StartShelf(inp), sh) && i < |inp.files|
    ensures Loadable(inp.files[i].raw) && BackOk(Top(i), sh)
    ensures var e, f, s := sh.tops[i], inp.files[i], StoredIn(inp, sh, Top(i));
            e == PackEntry(f.path, File, f.meta, None, s.ranges, s.off, s.size, [])
  {
    hide NormalizeForSolid;
    assert inp.files[i] in inp.files;
    assert SameEntry(StartShelf(inp).tops[i], sh.tops[i]);
  }

  lemma ZipEntryShape(inp: Inputs, sh: Shelf, zi: nat)
    requires AllLoadable(inp) && SameShelf(StartShelf(inp), sh) && zi < |inp.zips|
    ensures var e, z := sh.zips[zi], inp.zips[zi];
            && e == PackEntry(z.path, Zip, z.meta, None, [], e.solidOff, e.solidSize, e.zipInners)
            && |e.zipInners| == |z.inners|
            && (forall x :: x in z.inners ==> Loadable(x.raw))
            && (forall ii :: 0 <= ii < |z.inners| ==> Loadable(z.inners[ii].raw) && SameInner(InnerEntry(z.inners[ii]), e.zipInners[ii]))
  {
    hide NormalizeForSolid;
    assert inp.zips[zi] in inp.zips;
    assert SameEntry(StartShelf(inp).zips[zi], sh.zips[zi]);
  }

  lemma ZipInnerStored(inp: Inputs, sh: Shelf, zi: nat, ii: nat)
    requires AllLoadable(inp) && SameShelf(StartShelf(inp), sh) && IsFileBack(inp, Inner(zi, ii))
    ensures BackOk(Inner(zi, ii), sh) && StoredInner(sh.zips[zi].zipInners[ii]) == StoredIn(inp, sh, Inner(zi, ii))
  {
    hide NormalizeForSolid, SameShelf, AllLoadable;
    ShelfLengths(inp, sh);
    ZipEntryShape(inp, sh, zi);
    assert SameInner(InnerEntry(inp.zips[zi].inners[ii]), sh.zips[zi].zipInners[ii]);
  }

  /** The file entries of the shelf, and nothing else, are the packed files in order. */
  lemma ShelfFiles(inp: Inputs, sh: Shelf)
    requires AllLoadable(inp) && SameShelf(StartShelf(inp), sh) && OthersHoldNothing(inp)
    ensures |sh.tops| == |inp.files| && forall e :: e in sh.tops ==> e.kind == File
    ensures var es := sh.tops + sh.zips + inp.others;
            var fs := StoredFiles(es);
            && FilePaths(es) == TreeOf(inp).paths && |fs| == |inp.files|
            && forall i :: 0 <= i < |fs| ==> BackOk(Top(i), sh) && fs[i] == StoredIn(inp, sh, Top(i))
  {
    hide SameShelf, StoredIn, NormalizeForSolid, AllLoadable;
    ShelfLengths(inp, sh);
    forall i | 0 <= i < |sh.tops|
      ensures sh.tops[i].kind == File && sh.tops[i].path == inp.files[i].path
              && BackOk(Top(i), sh) && StoredOf(sh.tops[i]) == StoredIn(inp, sh, Top(i))
    {
      TopEntry(inp, sh, i);
    }
    forall i | 0 <= i < |sh.zips| ensures sh.zips[i].kind == Zip {
      ZipEntryShape(inp, sh, i);
    }
    FilesConcat(sh.tops + sh.zips, inp.others);
    FilesConcat(sh.tops, sh.zips);
    PathsConcat(sh.tops + sh.zips, inp.others);
    PathsConcat(sh.tops, sh.zips);
    NoFiles(sh.zips);
    NoFiles(inp.others);
    OnlyFiles([], sh.tops);
  }

  lemma ShelfZips(inp: Inputs, sh: Shelf, solid: seq<byte>)
    requires (forall e :: e in sh.tops ==> e.kind == File) && OthersHoldNothing(inp) && AllLoadable(inp)
    requires RebuildZips(solid, sh.zips) == Ok(PackedZips(RestoredInputs(inp)))
    ensures RebuildZips(solid, sh.tops + sh.zips + inp.others) == Ok(TreeOf(RestoredInputs(inp)).zips)
  {
    hide RebuildZips, EmptyZips;
    OnlyFiles(solid, sh.tops);
    OthersRebuilt(solid, inp.others);
    ZipsConcat(solid, sh.tops, sh.zips, []);
    PrependNothing(RebuildZips(solid, sh.zips));
    ZipsConcat(solid, sh.tops + sh.zips, inp.others, PackedZips(RestoredInputs(inp)));
  }

  /** The files and zips that unpacking the entries on the shelf gives back. */
  lemma ShelfComesBack(inp: Inputs, solid: seq<byte>, sh: Shelf)
    requires AllLoadable(inp) && WellStored(inp, solid, sh) && SameShelf(StartShelf(inp), sh) && OthersHoldNothing(inp)
    ensures var es := sh.tops + sh.zips + inp.others;
            var tree := TreeOf(RestoredInputs(inp));
            && FilePaths(es) == tree.paths
            && var u := UnpackInPlace(solid, StoredFiles(es));
               u.Ok? && u.value.0 == tree.files && RebuildZips(u.value.1, es) == Ok(tree.zips)
  {
    hide Restored, WellStored, SameShelf, UnpackInPlace, RebuildZips, StoredIn, NormalizeForSolid, AllLoadable, OthersHoldNothing,
         StoredFiles, FilePaths;
    ShelfFiles(inp, sh);
    var fs := StoredFiles(sh.tops + sh.zips + inp.others);
    var order: seq<nat> := seq(|inp.files|, i => i);
    AnyOrder(inp, solid, sh, order, fs);
    var u := UnpackInPlace(solid, fs).value;
    assert u.0 == TreeOf(RestoredInputs(inp)).files;
    assert FilePaths(sh.tops + sh.zips + inp.others) == TreeOf(RestoredInputs(inp)).paths;
    WellStoredBacks(inp, solid, sh);
    ZipsComeBack(inp, sh, u.1);
    ShelfZips(inp, sh, u.1);
  }

  lemma WellStoredBacks(inp: Inputs, solid: seq<byte>, sh: Shelf)
    requires WellStored(inp, solid, sh)
    ensures forall b :: IsFileBack(inp, b) ==> BackOk(b, sh)
  {
  }

  lemma ShelfLengths(inp: Inputs, sh: Shelf)
    requires AllLoadable(inp) && SameShelf(StartShelf(inp), sh)
    ensures |sh.tops| == |inp.files| && |sh.zips| == |inp.zips|
  {
  }

  lemma ZipsComeBack(inp: Inputs, sh: Shelf, solid: seq<byte>)
    requires AllLoadable(inp) && SameShelf(StartShelf(inp), sh)
    requires forall zi, ii :: IsFileBack(inp, Inner(zi, ii)) ==>
               BackOk(Inner(zi, ii), sh) && ExtractFile(solid, StoredIn(inp, sh, Inner(zi, ii))) == Ok(RestoredAt(inp, Inner(zi, ii)))
    ensures RebuildZips(solid, sh.zips) == Ok(PackedZips(RestoredInputs(inp)))
  {
    hide Restored, SameShelf, ExtractFile, StoredIn, NormalizeForSolid, AllLoadable, RebuildInners;
    assert |sh.zips| == |inp.zips| by { ShelfLengths(inp, sh); }
    forall zi | 0 <= zi < |sh.zips|
      ensures sh.zips[zi].kind == Zip && sh.zips[zi].path == inp.zips[zi].path
              && RebuildInners(solid, sh.zips[zi].zipInners) == Ok(InnerFiles(RestoredInputs(inp).zips[zi].inners))
    {
      var zs, xs := sh.zips[zi].zipInners, RestoredInputs(inp).zips[zi].inners;
      ZipEntryShape(inp, sh, zi);
      forall ii | 0 <= ii < |xs|
        ensures zs[ii].kind == xs[ii].inner.kind && zs[ii].path == xs[ii].inner.path
                && (zs[ii].kind == ZIP_FILE ==> ExtractFile(solid, StoredInner(zs[ii])) == Ok(xs[ii].raw))
      {
        if xs[ii].inner.kind == ZIP_FILE {
          ZipInnerStored(inp, sh, zi, ii);
        }
      }
      InnersRebuilt(solid, zs, xs);
    }
    AllZips(solid, sh.zips, PackedZips(RestoredInputs(inp)));
  }

  // ---- The entries the parser takes ----

  /** What the parser insists on: number of entries, paths, known kinds and architectures. */
  ghost predicate InputsOk(inp: Inputs) {
    && 1 <= |inp.files| + |inp.zips| + |inp.others| <= MAX_ENTRIES
    && (forall f :: f in inp.files ==> f.path != [])
    && (forall z :: z in inp.zips ==> z.path != [] && forall x :: x in z.inners ==> x.inner.kind <= 2 && x.inner.path != [])
    && (forall e :: e in inp.others ==> EntryOk(e))
  }

  ghost predicate InputTexts(utf8: Utf8, inp: Inputs) {
    && utf8([])
    && (forall f :: f in inp.files ==> utf8(f.path) && MetaTexts(utf8, f.meta))
    && (forall z :: z in inp.zips ==> utf8(z.path) && MetaTexts(utf8, z.meta) && forall x :: x in z.inners ==> InnerTexts(utf8, x.inner))
    && (forall e :: e in inp.others ==> EntryTexts(utf8, e))
  }

  lemma NormalizedRangesOk(raw: seq<byte>)
    requires Loadable(raw)
    ensures RangesOk(NormalizeForSolid(raw).ranges)
  {
    match Elf.ParseForPack(raw)
    case None =>
    case Some(info) =>
      hide StoredRanges;
      Elf.ParseForPackBounds(raw);
      StoredAreTransformed(info.sections, info.arch, |raw|);
      assert Decodable(StoredRanges(info.sections, info.arch), |raw|);
  }

  lemma TopEntryOk(utf8: Utf8, inp: Inputs, sh: Shelf, i: nat)
    requires AllLoadable(inp) && SameShelf(StartShelf(inp), sh) && InputTexts(utf8, inp) && i < |inp.files|
    ensures |sh.tops| == |inp.files|
    ensures var e := sh.tops[i]; EntryTexts(utf8, e) && (EntryOk(e) <==> inp.files[i].path != [])
  {
    hide NormalizeForSolid, RangesOk, SameShelf, AllLoadable;
    ShelfLengths(inp, sh);
    TopEntry(inp, sh, i);
    assert inp.files[i] in inp.files;
    NormalizedRangesOk(inp.files[i].raw);
  }

  ghost predicate ZipOk(z: ZipIn) {
    z.path != [] && forall x :: x in z.inners ==> x.inner.kind <= 2 && x.inner.path != []
  }

  lemma InnerEntryOk(utf8: Utf8, x: InnerIn, y: ZipInner)
    requires Loadable(x.raw) && SameInner(InnerEntry(x), y) && InnerTexts(utf8, x.inner)
    ensures InnerTexts(utf8, y) && (InnerOk(y) <==> x.inner.kind <= 2 && x.inner.path != [])
  {
    hide NormalizeForSolid, RangesOk;
    NormalizedRangesOk(x.raw);
  }

  lemma ZipEntryOk(utf8: Utf8, inp: Inputs, sh: Shelf, zi: nat)
    requires AllLoadable(inp) && SameShelf(StartShelf(inp), sh) && InputTexts(utf8, inp) && zi < |inp.zips|
    ensures |sh.zips| == |inp.zips|
    ensures var e := sh.zips[zi]; EntryTexts(utf8, e) && (EntryOk(e) <==> ZipOk(inp.zips[zi]))
  {
    hide NormalizeForSolid, RangesOk, SameShelf, AllLoadable, InnerOk, InnerTexts, InnerEntry, SameInner;
    ShelfLengths(inp, sh);
    var e, z := sh.zips[zi], inp.zips[zi];
    assert z in inp.zips;
    ZipEntryShape(inp, sh, zi);
    forall ii | 0 <= ii < |z.inners|
      ensures InnerTexts(utf8, e.zipInners[ii])
              && (InnerOk(e.zipInners[ii]) <==> z.inners[ii].inner.kind <= 2 && z.inners[ii].inner.path != [])
    {
      assert z.inners[ii] in z.inners;
      InnerEntryOk(utf8, z.inners[ii], e.zipInners[ii]);
    }
    if InnersOk(e.zipInners) {
      forall x | x in z.inners ensures x.inner.kind <= 2 && x.inner.path != [] {
        var ii :| 0 <= ii < |z.inners| && z.inners[ii] == x;
        assert e.zipInners[ii] in e.zipInners;
      }
    }
  }

  /** The written entries are acceptable exactly when the inputs are. */
  lemma ShelfEntriesOk(utf8: Utf8, inp: Inputs, sh: Shelf)
    requires AllLoadable(inp) && SameShelf(StartShelf(inp), sh) && InputTexts(utf8, inp)
    ensures var es := sh.tops + sh.zips + inp.others; EntriesTexts(utf8, es) && (ParserAccepts(es) <==> InputsOk(inp))
  {
    hide SameShelf, AllLoadable, EntryOk, EntryTexts, NormalizeForSolid;
    ShelfLengths(inp, sh);
    var es := sh.tops + sh.zips + inp.others;
    forall i | 0 <= i < |sh.tops| ensures EntryTexts(utf8, sh.tops[i]) && (EntryOk(sh.tops[i]) <==> inp.files[i].path != []) {
      TopEntryOk(utf8, inp, sh, i);
    }
    forall i | 0 <= i < |sh.zips| ensures EntryTexts(utf8, sh.zips[i]) && (EntryOk(sh.zips[i]) <==> ZipOk(inp.zips[i])) {
      ZipEntryOk(utf8, inp, sh, i);
    }
    if EntriesOk(es) {
      forall f | f in inp.files ensures f.path != [] {
        var i :| 0 <= i < |inp.files| && inp.files[i] == f;
        assert sh.tops[i] in es;
      }
      forall z | z in inp.zips ensures ZipOk(z) {
        var i :| 0 <= i < |inp.zips| && inp.zips[i] == z;
        assert sh.zips[i] in es;
      }
    }
  }

  // ---- End to end ----

  /**
   * Packing then unpacking, for any files. An image the packer wrote is refused if an input breaks a rule of
   * the parser or the solid exceeds the decoder's cap. In every other case it unpacks without error to
   * every path and zip with the restored files, which is the packed tree exactly when in every file the
   * order of the code sections does not matter.
   */
  lemma PackThenUnpack(codec: Codec, utf8: Utf8, lower: Text -> Text, inp: Inputs, level: nat, combos: seq<Combo>)
    requires Packable(lower, inp) && OthersHoldNothing(inp) && InputTexts(utf8, inp)
    ensures var r := PackImage(codec, lower, inp, level, combos);
            r.Ok? ==> UnpackImage(codec, utf8, r.value)
                      == if !InputsOk(inp) then Err(BadArchive)
                         else if |Solid(lower, inp)| > MAX_OUTPUT then Err(TooLarge)
                         else Ok(TreeOf(RestoredInputs(inp)))
    ensures TreeOf(RestoredInputs(inp)) == TreeOf(inp) <==> AllOrderFree(inp)
  {
    hide Solid, Shelved, CompressImage, ContainerBytes, ParseContainer, DecompressBytes, UnpackInPlace, RebuildZips, AllLoadable,
         WellStored, SameShelf, InputsOk, InputTexts, AllOrderFree, OthersHoldNothing, TreeOf, RestoredInputs, ParserAccepts,
         EntriesTexts, FilePaths, StoredFiles;
    var solid, sh := Solid(lower, inp), Shelved(lower, inp);
    var es := Entries(lower, inp);
    var chunks := WholeFile(|solid|);
    RestoredTreeExact(inp);
    if PackImage(codec, lower, inp, level, combos).Ok? {
      OpaqueRoundTrip(codec, solid, level, combos);
      var ucomp := CompressImage(codec, solid, chunks, None, level, combos).value;
      ImageFits(codec, solid, chunks, None, level, combos);
      PlanStoresWell(lower, inp);
      ShelfEntriesOk(utf8, inp, sh);
      ContainerBack(utf8, es, ucomp);
      if InputsOk(inp) && |solid| <= MAX_OUTPUT {
        ShelfComesBack(inp, solid, sh);
        CanonFiles(es);
        CanonZips(UnpackInPlace(solid, StoredFiles(es)).value.1, es);
      }
    }
  }

  /** In particular, if in no file code ranges overlap, what was packed comes back. */
  lemma ApartTreeComesBack(inp: Inputs)
    requires AllLoadable(inp) && AllCodeApart(inp)
    ensures AllOrderFree(inp) && TreeOf(RestoredInputs(inp)) == TreeOf(inp)
  {
    hide CodeApart, CodeOrderFree, TreeOf, RestoredInputs, AllLoadable;
    forall b | IsFileBack(inp, b) ensures CodeOrderFree(RawAt(inp, b)) {
      ApartFilesAreOrderFree(RawAt(inp, b));
    }
    RestoredTreeExact(inp);
  }

  /** The tree of one file, or the error. */
  function LoneFile(name: Text, plain: Result<seq<byte>>): Result<Tree> {
    match plain
    case Ok(p) => Ok(Tree([name], [p], []))
    case Err(e) => Err(e)
  }

  /**
   * One file, any file, packed alone: the payload is a full UCOMP01 image, no ranges are needed, and unpacking
   * gives what decoding that image gives; that is the file itself if it is conformant, and at level 0 always.
   */
  lemma SingleFileThenUnpack(codec: Codec, utf8: Utf8, name: Text, meta: FileMeta, data: seq<byte>, level: nat, combos: seq<Combo>)
    requires Loadable(data) && utf8([]) && utf8(name) && MetaTexts(utf8, meta)
    ensures var r := SingleFileImage(codec, name, meta, data, level, combos);
            var l := BuildChunks(data);
            r.Ok? ==>
              var ucomp := CompressImage(codec, data, l.chunks, l.arch, level, combos).value;
              var back := DecompressBytes(codec, ucomp);
              && UnpackImage(codec, utf8, r.value) == (if name == [] then Err(BadArchive) else LoneFile(name, back))
              && Outcome(data, ucomp, back)
              && (Conformant(data) || level == 0 ==> back == UpToCap(data))
  {
    hide CompressImage, ContainerBytes, ParseContainer, DecompressBytes, Conformant, BuildChunks, MetaTexts, CanonMeta, Outcome,
         Emitted, UpToCap;
    var es := [SingleEntry(name, meta, |data|)];
    var l := BuildChunks(data);
    if SingleFileImage(codec, name, meta, data, level, combos).Ok? {
      FileRoundTrip(codec, data, level, combos);
      var ucomp := CompressImage(codec, data, l.chunks, l.arch, level, combos).value;
      var back := DecompressBytes(codec, ucomp);
      if Conformant(data) {
        ConformantRoundTrip(codec, data, level, combos);
      }
      if level == 0 {
        LevelZeroRoundTrip(codec, data, combos);
      }
      FewChunks(data);
      ImageFits(codec, data, l.chunks, l.arch, level, combos);
      assert es[0] in es && (forall e :: e in es ==> e == es[0]);
      ContainerBack(utf8, es, ucomp);
      if name != [] && back.Ok? {
        OutcomeKeepsLength(data, ucomp, back);
        OneFileOut(back.value, name, CanonMeta(meta));
      }
    }
  }

  lemma OutcomeKeepsLength(data: seq<byte>, image: seq<byte>, back: Result<seq<byte>>)
    requires Outcome(data, image, back) && back.Ok?
    ensures |back.value| == |data|
  {
    hide Format.ReadU32, Format.ReadMeta, SectionsApart, ParsesAlike, CodeOrderFreeFor;
  }

  lemma FewChunks(data: seq<byte>)
    ensures |BuildChunks(data).chunks| <= Format.MAX_CHUNKS
  {
    hide Elf.Parse;
    if Elf.Parse(data).Some? {
      ChunkPartition(data, ArmBranch);
    }
  }

  lemma OneFileOut(data: seq<byte>, name: Text, meta: FileMeta)
    requires Loadable(data)
    ensures var es := [PackEntry(name, File, meta, None, [], 0, |data|, [])];
            && FilePaths(es) == [name]
            && UnpackInPlace(data, StoredFiles(es)) == Ok(([data], data))
            && RebuildZips(data, es) == Ok([])
  {
    var es := [PackEntry(name, File, meta, None, [], 0, |data|, [])];
    hide Splice;
    assert es[1..] == [];
    OnlyFiles(data, es);
    var f := Stored(0, |data|, []);
    assert StoredFiles(es) == [f] && FilePaths(es) == [name];
    WholeFileOut(data);
  }

  lemma WholeFileOut(data: seq<byte>)
    ensures UnpackInPlace(data, [Stored(0, |data|, [])]) == Ok(([data], data))
  {
    assert data[0..|data|] == data && Splice(data, 0, |data|, data) == data;
    assert [Stored(0, |data|, [])][1..] == [] && [data] + [] == [data];
    assert UnpackInPlace(data, []) == Ok(([], data));
    assert SolidSlice(data, 0, |data|) == Ok(data) && DenormalizeFile(data, []) == Ok(data);
  }

  // ---- The hypotheses can be met ----

  lemma SingletonOfMultiset<T>(s: seq<T>, x: T)
    requires multiset(s) == multiset{x}
    ensures s == [x]
  {
    assert |multiset(s)| == 1;
    assert s[0] in multiset(s);
  }

  /** One file without metadata. */
  function OneFile(path: Text, raw: seq<byte>): Inputs {
    Inputs([FileIn(path, FileMeta(None, None, None, None), raw)], [], [])
  }

  lemma OneFileLaid(lower: Text -> Text, path: Text, raw: seq<byte>)
    requires Loadable(raw)
    ensures Packable(lower, OneFile(path, raw)) && Solid(lower, OneFile(path, raw)) == NormalizeForSolid(raw).blob
  {
    hide StableSort, Classify, Duplicated, Lay, Faithful, Owned, NormalizeForSolid, Filter;
    var inp := OneFile(path, raw);
    var item := PoolItemOf(lower, path, raw, Top(0));
    assert TopItems(lower, inp.files, 0) == [] && ZipItems(lower, inp.zips, 0) == [];
    assert Pool(lower, inp) == [item];
    ClusteredPermutes([item]);
    SingletonOfMultiset(Clustered([item]), item);
    assert Blobs([item]) == [item.blob];
    OneBlob(item.blob);
  }

  lemma {:induction false} RangeCount(secs: seq<Elf.Section>, arch: Elf.Arch)
    requires SectionsFit(secs, U64_MAX)
    ensures |StoredRanges(secs, arch)| <= |secs|
  {
    if secs != [] {
      assert secs[0] in secs;
      RangeCount(secs[1..], arch);
    }
  }

  /** A file never has too many ranges for the 16-bit count of an entry. */
  lemma FewRanges(raw: seq<byte>)
    requires Loadable(raw)
    ensures |NormalizeForSolid(raw).ranges| <= U16_MAX
  {
    hide StoredRanges;
    match Elf.ParseForPack(raw)
    case None =>
    case Some(info) =>
      Elf.ParseForPackBounds(raw);
      RangeCount(info.sections, info.arch);
  }

  lemma OneFileQualifies(path: Text, raw: seq<byte>)
    requires path != []
    ensures var inp := OneFile(path, raw); OthersHoldNothing(inp) && InputTexts(_ => true, inp) && InputsOk(inp)
  {
  }

  /** For any one file everything that the end-to-end result asks for holds, and packing succeeds if the codec does. */
  lemma OneFilePacks(codec: Codec, lower: Text -> Text, path: Text, raw: seq<byte>, level: nat, combos: seq<Combo>)
    requires 0 < |path| <= U16_MAX && |raw| <= U32_MAX && EncodesUpTo(codec, |raw|) && HasValidCombo(combos)
    ensures var inp := OneFile(path, raw);
            && Packable(lower, inp) && OthersHoldNothing(inp) && InputTexts(_ => true, inp) && InputsOk(inp)
            && |Solid(lower, inp)| == |raw| && PackImage(codec, lower, inp, level, combos).Ok?
  {
    hide EncodesUpTo, HasValidCombo, Solid, Shelved, CompressImage, ContainerBytes, OthersHoldNothing, InputTexts, InputsOk, SameShelf, NormalizeForSolid;
    var inp := OneFile(path, raw);
    OneFileLaid(lower, path, raw);
    OneFileQualifies(path, raw);
    var solid, sh := Solid(lower, inp), Shelved(lower, inp);
    ShelfLengths(inp, sh);
    TopEntry(inp, sh, 0);
    FewRanges(raw);
    assert Entries(lower, inp) == [sh.tops[0]];
    WholeFileFits(|solid|);
    CompressSucceeds(codec, solid, WholeFile(|solid|), None, level, combos);
    OneEntryBytes(sh.tops[0], CompressImage(codec, solid, WholeFile(|solid|), None, level, combos).value);
  }

  lemma OneFileTree(path: Text, raw: seq<byte>)
    requires Loadable(raw)
    ensures AllLoadable(OneFile(path, raw)) && TreeOf(RestoredInputs(OneFile(path, raw))) == Tree([path], [Restored(raw)], [])
  {
    hide Restored;
    var tree := TreeOf(RestoredInputs(OneFile(path, raw)));
    assert tree.paths == [path] && tree.files == [Restored(raw)] && tree.zips == [];
  }

  /** Packed alone under `path`, the file `raw` unpacks to `plain` under that path. */
  ghost predicate UnpacksTo(codec: Codec, lower: Text -> Text, path: Text, raw: seq<byte>, level: nat, combos: seq<Combo>,
                            plain: seq<byte>)
  {
    && Packable(lower, OneFile(path, raw))
    && var r := PackImage(codec, lower, OneFile(path, raw), level, combos);
       r.Ok? && UnpackImage(codec, _ => true, r.value) == Ok(Tree([path], [plain], []))
  }

  lemma OneFileUnpacks(codec: Codec, lower: Text -> Text, path: Text, raw: seq<byte>, level: nat, combos: seq<Combo>)
    requires 0 < |path| <= U16_MAX && |raw| <= MAX_OUTPUT && EncodesUpTo(codec, |raw|) && HasValidCombo(combos)
    ensures Loadable(raw) && UnpacksTo(codec, lower, path, raw, level, combos, Restored(raw))
  {
    hide EncodesUpTo, HasValidCombo, PackImage, UnpackImage, Restored, Packable, InputsOk, InputTexts, OthersHoldNothing, AllOrderFree, TreeOf, RestoredInputs;
    var inp := OneFile(path, raw);
    OneFilePacks(codec, lower, path, raw, level, combos);
    PackThenUnpack(codec, _ => true, lower, inp, level, combos);
    OneFileTree(path, raw);
  }

  lemma OneBlob(raw: seq<byte>)
    ensures Lay([raw]) == raw
  {
    assert [raw][..0] == [] && Lay([]) == [] && Zeros(0) == [];
    assert [] + [] + raw == raw;
  }

  lemma OneEntryBytes(e: PackEntry, solid: seq<byte>)
    requires e.kind == File && |e.path| <= U16_MAX && e.meta == FileMeta(None, None, None, None) && |e.codeRanges| <= U16_MAX
    ensures ContainerBytes([e], solid).Ok?
  {
    hide ToLE, RangeListBytes;
    assert [e][1..] == [];
    assert EntryListBytes([]) == Ok([]) && EntryBytes(e).Ok?;
  }
}

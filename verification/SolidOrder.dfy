/** The order of the files in the solid, in terms of what is packed: pack_specs of src/pack.rs. */
module SolidOrder {
  import opened Bytes
  import opened Normalize
  import opened Elf
  import opened Sorting
  import opened ContainerFormat
  import opened Cluster
  import opened SolidLayout
  import opened Packing
  import opened Variants

  /** The order in which files are collected: those of the manifest, then zip by zip the files inside. */
  predicate Earlier(a: Back, b: Back) {
    match a
    case Top(i) => b.Inner? || i < b.i
    case Inner(zi, ii) => b.Inner? && (zi < b.zi || (zi == b.zi && ii < b.ii))
  }

  predicate AsCollected(p: seq<PoolItem>) {
    forall i, j :: 0 <= i < j < |p| ==> Earlier(p[i].back, p[j].back)
  }

  function PathAt(inp: Inputs, b: Back): Text
    requires IsFileBack(inp, b)
  {
    match b
    case Top(i) => inp.files[i].path
    case Inner(zi, ii) => inp.zips[zi].inners[ii].inner.path
  }

  /** The class of a file: ARM64 executables, other ARM64 files, x86 files, scripts, the rest. */
  predicate HasClass(path: Text, raw: seq<byte>, cls: nat) {
    match ParseForPack(raw)
    case Some(info) => if info.arch == X86 then cls == 2 else if info.eType == 2 then cls == 0 else cls == 1
    case None =>
      var n := |path|;
      var script := (n >= 3 && path[n - 3] == 0x2E && path[n - 2] == 0x73 && path[n - 1] == 0x68)
                    || (|raw| >= 2 && raw[0] == 0x23 && raw[1] == 0x21);
      cls == if script then 3 else 4
  }

  /** The item of the file at its owner, under the file's class and lowercased path. */
  ghost predicate IsItem(lower: Text -> Text, inp: Inputs, x: PoolItem) {
    && IsFileBack(inp, x.back)
    && x.key.lower == lower(PathAt(inp, x.back)) && HasClass(PathAt(inp, x.back), RawAt(inp, x.back), x.key.cls)
  }

  ghost predicate AreItems(lower: Text -> Text, inp: Inputs, p: seq<PoolItem>) {
    forall x :: x in p ==> IsItem(lower, inp, x)
  }

  lemma ItemOf(lower: Text -> Text, inp: Inputs, b: Back)
    requires IsFileBack(inp, b) && Loadable(RawAt(inp, b))
    ensures IsItem(lower, inp, PoolItemOf(lower, PathAt(inp, b), RawAt(inp, b), b))
  {
    hide ParseForPack, NormalizeForSolid;
    var raw := RawAt(inp, b);
    PackedBlob(raw);
    ClassifyExact(lower, PathAt(inp, b), raw, NormalizeForSolid(raw).elfId);
  }

  lemma CollectedConcat(p: seq<PoolItem>, q: seq<PoolItem>)
    requires AsCollected(p) && AsCollected(q) && forall x, y :: x in p && y in q ==> Earlier(x.back, y.back)
    ensures AsCollected(p + q)
  {
    forall i, j | 0 <= i < j < |p + q| ensures Earlier((p + q)[i].back, (p + q)[j].back) {
      if i < |p| <= j {
        assert (p + q)[i] in p && (p + q)[j] in q;
      }
    }
  }

  lemma {:induction false} TopsCollected(lower: Text -> Text, inp: Inputs, n: nat)
    requires AllLoadable(inp) && n <= |inp.files|
    ensures var p := TopItems(lower, inp.files, n);
            AreItems(lower, inp, p) && AsCollected(p) && forall x :: x in p ==> x.back.Top? && x.back.i < n
  {
    hide IsItem, PoolItemOf, Earlier;
    if n > 0 {
      TopsCollected(lower, inp, n - 1);
      assert inp.files[n - 1] in inp.files;
      ItemOf(lower, inp, Top(n - 1));
      LastCollected(TopItems(lower, inp.files, n - 1), inp.files[n - 1], lower, n - 1);
    }
  }

  lemma LastCollected(p: seq<PoolItem>, f: FileIn, lower: Text -> Text, n: nat)
    requires Loadable(f.raw) && AsCollected(p) && forall x :: x in p ==> x.back.Top? && x.back.i < n
    ensures AsCollected(p + [PoolItemOf(lower, f.path, f.raw, Top(n))])
    ensures PoolItemOf(lower, f.path, f.raw, Top(n)).back == Top(n)
  {
    hide NormalizeForSolid, Classify;
    CollectedConcat(p, [PoolItemOf(lower, f.path, f.raw, Top(n))]);
  }

  lemma {:induction false} InnersCollected(lower: Text -> Text, inp: Inputs, zi: nat, n: nat)
    requires AllLoadable(inp) && zi < |inp.zips| && n <= |inp.zips[zi].inners|
    ensures forall x :: x in inp.zips[zi].inners ==> Loadable(x.raw)
    ensures var p := InnerItems(lower, inp.zips[zi].inners, zi, n);
            && AreItems(lower, inp, p) && AsCollected(p)
            && forall x :: x in p ==> x.back.Inner? && x.back.zi == zi && x.back.ii < n
  {
    hide IsItem, NormalizeForSolid, Classify;
    if n > 0 {
      InnersCollected(lower, inp, zi, n - 1);
      var p := InnerItems(lower, inp.zips[zi].inners, zi, n - 1);
      var x := inp.zips[zi].inners[n - 1];
      if x.inner.kind == ZIP_FILE {
        ItemOf(lower, inp, Inner(zi, n - 1));
        CollectedConcat(p, [PoolItemOf(lower, x.inner.path, x.raw, Inner(zi, n - 1))]);
      } else {
        assert p + [] == p;
      }
    }
  }

  lemma {:induction false} ZipsCollected(lower: Text -> Text, inp: Inputs, n: nat)
    requires AllLoadable(inp) && n <= |inp.zips|
    ensures var p := ZipItems(lower, inp.zips, n);
            AreItems(lower, inp, p) && AsCollected(p) && forall x :: x in p ==> x.back.Inner? && x.back.zi < n
  {
    hide IsItem, InnerItems;
    if n > 0 {
      ZipsCollected(lower, inp, n - 1);
      InnersCollected(lower, inp, n - 1, |inp.zips[n - 1].inners|);
      CollectedConcat(ZipItems(lower, inp.zips, n - 1), InnerItems(lower, inp.zips[n - 1].inners, n - 1, |inp.zips[n - 1].inners|));
    }
  }

  lemma PoolCollected(lower: Text -> Text, inp: Inputs)
    requires AllLoadable(inp)
    ensures AreItems(lower, inp, Pool(lower, inp)) && AsCollected(Pool(lower, inp))
  {
    hide TopItems, ZipItems, IsItem;
    TopsCollected(lower, inp, |inp.files|);
    ZipsCollected(lower, inp, |inp.zips|);
    CollectedConcat(TopItems(lower, inp.files, |inp.files|), ZipItems(lower, inp.zips, |inp.zips|));
  }

  // ---- Ties ----

  lemma {:induction false} FilterIn(s: seq<PoolItem>, p: PoolItem -> bool, x: PoolItem)
    ensures x in Filter(s, p) <==> x in s && p(x)
  {
    if s != [] {
      FilterIn(s[1..], p, x);
      assert s == [s[0]] + s[1..];
    }
  }

  lemma {:induction false} FilterCollected(s: seq<PoolItem>, p: PoolItem -> bool)
    requires AsCollected(s)
    ensures AsCollected(Filter(s, p))
  {
    hide Earlier;
    if s != [] {
      FilterCollected(s[1..], p);
      if p(s[0]) {
        forall y | y in Filter(s[1..], p) ensures Earlier(s[0].back, y.back) {
          FilterIn(s[1..], p, y);
          var k :| 0 <= k < |s[1..]| && s[1..][k] == y;
          assert s[k + 1] == y;
        }
        CollectedConcat([s[0]], Filter(s[1..], p));
      } else {
        assert [] + Filter(s[1..], p) == Filter(s[1..], p);
      }
    }
  }

  /** Two elements that pass the filter keep their order in it. */
  lemma {:induction false} FilterOrder(s: seq<PoolItem>, p: PoolItem -> bool, i: nat, j: nat)
    requires i < j < |s| && p(s[i]) && p(s[j])
    ensures exists a, b :: 0 <= a < b < |Filter(s, p)| && Filter(s, p)[a] == s[i] && Filter(s, p)[b] == s[j]
  {
    var f, rest := Filter(s, p), Filter(s[1..], p);
    if i == 0 {
      FilterIn(s[1..], p, s[j]);
      assert s[1..][j - 1] == s[j];
      var b :| 0 <= b < |rest| && rest[b] == s[j];
      assert f[0] == s[0] && f[b + 1] == s[j];
    } else {
      FilterOrder(s[1..], p, i - 1, j - 1);
      var a, b :| 0 <= a < b < |rest| && rest[a] == s[i] && rest[b] == s[j];
      var d := if p(s[0]) then 1 else 0;
      assert f[a + d] == s[i] && f[b + d] == s[j];
    }
  }

  lemma TiesAsCollected(pool: seq<PoolItem>, i: nat, j: nat)
    requires AsCollected(pool) && i < j < |pool| && Clustered(pool)[i].key == Clustered(pool)[j].key
    ensures Earlier(Clustered(pool)[i].back, Clustered(pool)[j].back)
  {
    hide Earlier, BasenameOf, NameCount, StableSort;
    var s := Clustered(pool);
    var p := Ties(pool, s[i]);
    ComparatorIsTotalPreorder(pool);
    assert Before(pool)(s[i], s[i]) && p(s[i]) && p(s[j]);
    TiesStayInOrder(pool, s[i]);
    FilterCollected(pool, p);
    FilterOrder(s, p, i, j);
  }

  /**
   * The solid holds the files in cluster order: every item is that of a file under its class and lowercased path,
   * no item stands before one that must precede it, and items with the same key stay as they were collected.
   */
  lemma SolidInClusterOrder(lower: Text -> Text, inp: Inputs)
    requires AllLoadable(inp)
    ensures AreItems(lower, inp, Ordered(lower, inp))
    ensures forall i, j :: 0 <= i < j < |Ordered(lower, inp)| ==>
              var a, b := Ordered(lower, inp)[i], Ordered(lower, inp)[j];
              MayPrecede(Pool(lower, inp), a.key, b.key) && (a.key == b.key ==> Earlier(a.back, b.back))
  {
    hide IsItem, AllLoadable, Pool, Clustered, MayPrecede, Earlier;
    var all := Pool(lower, inp);
    PoolCollected(lower, inp);
    ClusteredPermutes(all);
    forall x | x in Clustered(all) ensures IsItem(lower, inp, x) {
      assert x in multiset(Clustered(all)) && x in multiset(all);
    }
    forall i, j | 0 <= i < j < |Clustered(all)|
      ensures var a, b := Clustered(all)[i], Clustered(all)[j];
              MayPrecede(all, a.key, b.key) && (a.key == b.key ==> Earlier(a.back, b.back))
    {
      ClusterOrder(all, i, j);
      if Clustered(all)[i].key == Clustered(all)[j].key {
        TiesAsCollected(all, i, j);
      }
    }
  }

  /** `off` is the first multiple of four from `end` on. */
  predicate NextAligned(end: nat, off: nat) {
    off % 4 == 0 && end <= off < end + 4
  }

  /** The places in the table follow that order: the first file at 0, each next one aligned after the one before. */
  lemma PlacesFollowOrder(lower: Text -> Text, inp: Inputs, k: nat)
    requires Packable(lower, inp) && k < |Ordered(lower, inp)|
    ensures var pool, sh := Ordered(lower, inp), Shelved(lower, inp);
            && BackOk(pool[k].back, sh) && PlaceAt(sh, pool[k].back).size == |pool[k].blob|
            && (k == 0 ==> PlaceAt(sh, pool[k].back).off == 0)
            && (k > 0 ==> BackOk(pool[k - 1].back, sh)
                          && NextAligned(PlaceAt(sh, pool[k - 1].back).End(), PlaceAt(sh, pool[k].back).off))
            && (k == |pool| - 1 ==> PlaceAt(sh, pool[k].back).End() == |Solid(lower, inp)|)
  {
    hide Ordered, Lay, SlotOf, PlaceAt, BackOk, AllLoadable, Faithful, Owned, Shelved, SameShelf;
    SlotsFollow(Blobs(Ordered(lower, inp)), k);
    SlotSize(Blobs(Ordered(lower, inp)), k);
  }

  lemma SlotSize(blobs: seq<seq<byte>>, k: nat)
    requires k < |blobs|
    ensures SlotOf(blobs, k).size == |blobs[k]|
  {
  }

  lemma SlotsFollow(blobs: seq<seq<byte>>, k: nat)
    requires k < |blobs|
    ensures k == 0 ==> SlotOf(blobs, k).off == 0
    ensures k > 0 ==> NextAligned(SlotOf(blobs, k - 1).End(), SlotOf(blobs, k).off)
    ensures k == |blobs| - 1 ==> SlotOf(blobs, k).End() == |Lay(blobs)|
  {
    hide SlotOf, Lay, Pad, Zeros;
    LayoutEnds(blobs);
    if k > 0 {
      assert SlotOf(blobs, k).off % 4 == 0 by { SlotInSolid(blobs, k); }
      SlotsInOrder(blobs, k - 1, k);
    }
  }
}

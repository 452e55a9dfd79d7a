/** Laying blobs out in the solid and scattering their places to the owners: pack_specs of src/pack.rs. */
module SolidLayout {
  import opened Bytes
  import opened ContainerFormat
  import opened Cluster

  datatype Slot = Slot(off: nat, size: nat) {
    function End(): nat { off + size }
  }

  function Pad(n: nat): nat {
    (4 - n % 4) % 4
  }

  function Zeros(n: nat): (z: seq<byte>)
    ensures |z| == n && forall i :: 0 <= i < n ==> z[i] == 0
  {
    if n == 0 then [] else Zeros(n - 1) + [0]
  }

  /** The blobs one after the other, each on a multiple of four. */
  function Lay(blobs: seq<seq<byte>>): seq<byte> {
    if blobs == [] then []
    else
      var s := Lay(blobs[..|blobs| - 1]);
      s + Zeros(Pad(|s|)) + blobs[|blobs| - 1]
  }

  /** Where blob `k` went. */
  function SlotOf(blobs: seq<seq<byte>>, k: nat): Slot
    requires k < |blobs|
  {
    var n := |Lay(blobs[..k])|;
    Slot(n + Pad(n), |blobs[k]|)
  }

  lemma LayNext(blobs: seq<seq<byte>>, k: nat)
    requires k < |blobs|
    ensures var s := Lay(blobs[..k]); Lay(blobs[..k + 1]) == s + Zeros(Pad(|s|)) + blobs[k]
    ensures SlotOf(blobs, k).End() == |Lay(blobs[..k + 1])|
  {
    assert blobs[..k + 1][..k] == blobs[..k];
  }

  /** Later blobs do not disturb what has been laid. */
  lemma {:induction false} LayPrefix(blobs: seq<seq<byte>>, k: nat, n: nat)
    requires k <= n <= |blobs|
    ensures Lay(blobs[..k]) <= Lay(blobs[..n])
    decreases n
  {
    if k < n {
      LayPrefix(blobs, k, n - 1);
      LayNext(blobs, n - 1);
    }
  }

  predicate InGap(blobs: seq<seq<byte>>, i: nat) {
    forall k :: 0 <= k < |blobs| ==> i < SlotOf(blobs, k).off || SlotOf(blobs, k).End() <= i
  }

  lemma PadAligns(n: nat)
    ensures (n + Pad(n)) % 4 == 0 && Pad(n) < 4
  {
  }

  lemma SlotInSolid(blobs: seq<seq<byte>>, k: nat)
    requires k < |blobs|
    ensures var s := SlotOf(blobs, k);
            s.off % 4 == 0 && s.End() <= |Lay(blobs)| && Lay(blobs)[s.off..s.End()] == blobs[k]
  {
    hide Lay, Zeros, Pad;
    var before, part, whole := Lay(blobs[..k]), Lay(blobs[..k + 1]), Lay(blobs);
    var front := before + Zeros(Pad(|before|));
    PadAligns(|before|);
    LayNext(blobs, k);
    LayPrefix(blobs, k + 1, |blobs|);
    assert blobs[..|blobs|] == blobs;
    assert part[|front|..] == blobs[k];
    PrefixSlice(part, whole, |front|);
  }

  lemma PrefixSlice(part: seq<byte>, whole: seq<byte>, off: nat)
    requires part <= whole && off <= |part|
    ensures whole[off..|part|] == part[off..]
  {
  }

  lemma SlotsInOrder(blobs: seq<seq<byte>>, k: nat, l: nat)
    requires k < l < |blobs|
    ensures SlotOf(blobs, k).End() <= SlotOf(blobs, l).off
    ensures l == k + 1 ==> SlotOf(blobs, l).off < SlotOf(blobs, k).End() + 4
  {
    LayNext(blobs, k);
    LayPrefix(blobs, k + 1, l);
  }

  lemma {:induction false} GapsAreZero(blobs: seq<seq<byte>>, n: nat, i: nat)
    requires n <= |blobs| && i < |Lay(blobs[..n])| && InGap(blobs, i)
    ensures Lay(blobs[..n])[i] == 0
  {
    if n > 0 {
      LayNext(blobs, n - 1);
      var s := Lay(blobs[..n - 1]);
      if i < |s| {
        GapsAreZero(blobs, n - 1, i);
      } else {
        assert i < SlotOf(blobs, n - 1).off;
      }
    }
  }

  /** Aligned, in bounds, in order, apart; each slot slices back to its blob; gaps shorter than four, all zero. */
  lemma LayoutSound(blobs: seq<seq<byte>>)
    ensures forall k :: 0 <= k < |blobs| ==>
              var s := SlotOf(blobs, k); s.off % 4 == 0 && s.End() <= |Lay(blobs)| && Lay(blobs)[s.off..s.End()] == blobs[k]
    ensures forall k, l :: 0 <= k < l < |blobs| ==> SlotOf(blobs, k).End() <= SlotOf(blobs, l).off
    ensures forall k :: 0 <= k < |blobs| - 1 ==> SlotOf(blobs, k + 1).off < SlotOf(blobs, k).End() + 4
    ensures forall i :: 0 <= i < |Lay(blobs)| && InGap(blobs, i) ==> Lay(blobs)[i] == 0
  {
    forall k | 0 <= k < |blobs|
      ensures var s := SlotOf(blobs, k); s.off % 4 == 0 && s.End() <= |Lay(blobs)| && Lay(blobs)[s.off..s.End()] == blobs[k]
    {
      SlotInSolid(blobs, k);
    }
    forall k, l | 0 <= k < l < |blobs| ensures SlotOf(blobs, k).End() <= SlotOf(blobs, l).off {
      SlotsInOrder(blobs, k, l);
    }
    forall k | 0 <= k < |blobs| - 1 ensures SlotOf(blobs, k + 1).off < SlotOf(blobs, k).End() + 4 {
      SlotsInOrder(blobs, k, k + 1);
    }
    assert blobs[..|blobs|] == blobs;
    forall i | 0 <= i < |Lay(blobs)| && InGap(blobs, i) ensures Lay(blobs)[i] == 0 {
      GapsAreZero(blobs, |blobs|, i);
    }
  }

  /** Nothing before the first blob and nothing after the last. */
  lemma LayoutEnds(blobs: seq<seq<byte>>)
    ensures blobs == [] ==> Lay(blobs) == []
    ensures blobs != [] ==> SlotOf(blobs, 0).off == 0 && |Lay(blobs)| == SlotOf(blobs, |blobs| - 1).End()
  {
    hide Zeros;
    if blobs != [] {
      assert blobs[..0] == [] && blobs[..|blobs|] == blobs;
      LayNext(blobs, |blobs| - 1);
    }
  }

  // ---- Scattering the places back ----

  /** Top-level files and zip containers, whose places are filled in. */
  datatype Shelf = Shelf(tops: seq<PackEntry>, zips: seq<PackEntry>)

  predicate BackOk(b: Back, sh: Shelf) {
    match b
    case Top(i) => i < |sh.tops|
    case Inner(zi, ii) => zi < |sh.zips| && ii < |sh.zips[zi].zipInners|
  }

  function PlaceAt(sh: Shelf, b: Back): Slot
    requires BackOk(b, sh)
  {
    match b
    case Top(i) => Slot(sh.tops[i].solidOff, sh.tops[i].solidSize)
    case Inner(zi, ii) => Slot(sh.zips[zi].zipInners[ii].solidOff, sh.zips[zi].zipInners[ii].solidSize)
  }

  function Store(sh: Shelf, b: Back, off: u64, size: u64): Shelf
    requires BackOk(b, sh)
  {
    match b
    case Top(i) => sh.(tops := sh.tops[i := sh.tops[i].(solidOff := off, solidSize := size)])
    case Inner(zi, ii) =>
      var inners := sh.zips[zi].zipInners;
      sh.(zips := sh.zips[zi := sh.zips[zi].(zipInners := inners[ii := inners[ii].(solidOff := off, solidSize := size)])])
  }

  predicate SameInner(a: ZipInner, b: ZipInner) {
    a.(solidOff := b.solidOff, solidSize := b.solidSize) == b
  }

  /** Equal but for the places. */
  predicate SameEntry(a: PackEntry, b: PackEntry) {
    && a.(solidOff := b.solidOff, solidSize := b.solidSize, zipInners := b.zipInners) == b
    && |a.zipInners| == |b.zipInners|
    && forall i :: 0 <= i < |a.zipInners| ==> SameInner(a.zipInners[i], b.zipInners[i])
  }

  predicate SameShelf(a: Shelf, b: Shelf) {
    && |a.tops| == |b.tops| && |a.zips| == |b.zips|
    && (forall i :: 0 <= i < |a.tops| ==> SameEntry(a.tops[i], b.tops[i]))
    && (forall i :: 0 <= i < |a.zips| ==> SameEntry(a.zips[i], b.zips[i]))
  }

  lemma StoreStores(sh: Shelf, b: Back, off: u64, size: u64)
    requires BackOk(b, sh)
    ensures var t := Store(sh, b, off, size);
            && SameShelf(sh, t) && BackOk(b, t) && PlaceAt(t, b) == Slot(off, size)
            && forall c :: BackOk(c, sh) && c != b ==> BackOk(c, t) && PlaceAt(t, c) == PlaceAt(sh, c)
  {
  }

  lemma SameShelfTransitive(a: Shelf, b: Shelf, c: Shelf)
    requires SameShelf(a, b) && SameShelf(b, c)
    ensures SameShelf(a, c)
  {
    forall i | 0 <= i < |a.tops| ensures SameEntry(a.tops[i], c.tops[i]) {
      SameEntryTransitive(a.tops[i], b.tops[i], c.tops[i]);
    }
    forall i | 0 <= i < |a.zips| ensures SameEntry(a.zips[i], c.zips[i]) {
      SameEntryTransitive(a.zips[i], b.zips[i], c.zips[i]);
    }
  }

  lemma SameEntryTransitive(a: PackEntry, b: PackEntry, c: PackEntry)
    requires SameEntry(a, b) && SameEntry(b, c)
    ensures SameEntry(a, c)
  {
    forall i | 0 <= i < |a.zipInners| ensures SameInner(a.zipInners[i], c.zipInners[i]) {
      assert SameInner(a.zipInners[i], b.zipInners[i]) && SameInner(b.zipInners[i], c.zipInners[i]);
    }
  }

  lemma SameShelfBackOk(a: Shelf, b: Shelf, k: Back)
    requires SameShelf(a, b) && BackOk(k, a)
    ensures BackOk(k, b)
  {
    match k
    case Top(_) =>
    case Inner(zi, _) => assert SameEntry(a.zips[zi], b.zips[zi]);
  }

  function Blobs(pool: seq<PoolItem>): (bs: seq<seq<byte>>)
    ensures |bs| == |pool| && forall i :: 0 <= i < |pool| ==> bs[i] == pool[i].blob
  {
    seq(|pool|, i requires 0 <= i < |pool| => pool[i].blob)
  }

  /** Every item has an owner, and no two items the same. */
  ghost predicate Owned(pool: seq<PoolItem>, sh: Shelf) {
    && (forall x :: x in pool ==> BackOk(x.back, sh))
    && (forall i, j :: 0 <= i < j < |pool| ==> pool[i].back != pool[j].back)
  }

  /** The first `n` items have been laid, and their owners know where. */
  ghost predicate Placed(pool: seq<PoolItem>, start: Shelf, sh: Shelf, n: nat) {
    && n <= |pool| && SameShelf(start, sh)
    && (forall k :: 0 <= k < n ==> BackOk(pool[k].back, sh) && PlaceAt(sh, pool[k].back) == SlotOf(Blobs(pool), k))
    && (forall b :: BackOk(b, start) && (forall k :: 0 <= k < n ==> pool[k].back != b) ==>
          BackOk(b, sh) && PlaceAt(sh, b) == PlaceAt(start, b))
  }

  /** The shelf after the first `n` items have been laid. */
  function Scatter(pool: seq<PoolItem>, start: Shelf, n: nat): (sh: Shelf)
    requires Owned(pool, start) && |Lay(Blobs(pool))| <= U64_MAX && n <= |pool|
    ensures Placed(pool, start, sh, n)
  {
    if n == 0 then NothingPlaced(pool, start); start
    else
      var sh := Scatter(pool, start, n - 1);
      var slot := SlotOf(Blobs(pool), n - 1);
      StoreNext(pool, start, sh, n - 1);
      Store(sh, pool[n - 1].back, slot.off, slot.size)
  }

  lemma PlaceNext(pool: seq<PoolItem>, start: Shelf, sh: Shelf, n: nat)
    requires Owned(pool, start) && Placed(pool, start, sh, n) && n < |pool|
    requires SlotOf(Blobs(pool), n).End() <= U64_MAX
    ensures BackOk(pool[n].back, sh)
    ensures var s := SlotOf(Blobs(pool), n); Placed(pool, start, Store(sh, pool[n].back, s.off, s.size), n + 1)
  {
    hide SlotOf, SameShelf, PlaceAt, Store;
    var s := SlotOf(Blobs(pool), n);
    assert pool[n] in pool;
    SameShelfBackOk(start, sh, pool[n].back);
    StoreStores(sh, pool[n].back, s.off, s.size);
    SameShelfTransitive(start, sh, Store(sh, pool[n].back, s.off, s.size));
  }

  lemma StoreNext(pool: seq<PoolItem>, start: Shelf, sh: Shelf, n: nat)
    requires Owned(pool, start) && Placed(pool, start, sh, n) && n < |pool| && |Lay(Blobs(pool))| <= U64_MAX
    ensures SlotOf(Blobs(pool), n).End() <= U64_MAX && BackOk(pool[n].back, sh)
    ensures var s := SlotOf(Blobs(pool), n); Placed(pool, start, Store(sh, pool[n].back, s.off, s.size), n + 1)
  {
    hide SlotOf, Placed, Store;
    LayStep(pool, n);
    PlaceNext(pool, start, sh, n);
  }

  lemma SameShelfReflexive(sh: Shelf)
    ensures SameShelf(sh, sh)
  {
  }

  /** The solid grows by padding and blob; each place goes back to the blob's owner. */
  method LayOut(pool: seq<PoolItem>, start: Shelf) returns (solid: seq<byte>, sh: Shelf)
    requires Owned(pool, start) && |Lay(Blobs(pool))| <= U64_MAX
    ensures solid == Lay(Blobs(pool)) && sh == Scatter(pool, start, |pool|)
  {
    hide Placed, SameShelf, Store, SlotOf, Lay, Zeros;
    ghost var blobs := Blobs(pool);
    solid, sh := [], start;
    assert blobs[..0] == [] && Lay([]) == [] by { NothingLaid(); }
    for n := 0 to |pool|
      invariant solid == Lay(blobs[..n]) && sh == Scatter(pool, start, n)
    {
      LayStep(pool, n);
      var item := pool[n];
      solid := solid + Zeros((4 - |solid| % 4) % 4);
      var off: u64, size: u64 := |solid|, |item.blob|;
      solid := solid + item.blob;
      PlaceNext(pool, start, sh, n);
      sh := Store(sh, item.back, off, size);
    }
    assert blobs[..|pool|] == blobs;
  }

  /** One turn of the loop: what is appended, and the place it gets. */
  lemma LayStep(pool: seq<PoolItem>, n: nat)
    requires n < |pool|
    ensures var blobs := Blobs(pool);
            var s := Lay(blobs[..n]);
            var pad := (4 - |s| % 4) % 4;
            && Lay(blobs[..n + 1]) == s + Zeros(pad) + pool[n].blob
            && SlotOf(blobs, n) == Slot(|s| + pad, |pool[n].blob|)
            && SlotOf(blobs, n).End() <= |Lay(blobs)|
  {
    var blobs := Blobs(pool);
    LayNext(blobs, n);
    LayPrefix(blobs, n + 1, |blobs|);
    assert blobs[..|blobs|] == blobs;
  }

  lemma NothingLaid()
    ensures Lay([]) == []
  {
  }

  lemma NothingPlaced(pool: seq<PoolItem>, sh: Shelf)
    ensures Placed(pool, sh, sh, 0)
  {
    SameShelfReflexive(sh);
  }
}

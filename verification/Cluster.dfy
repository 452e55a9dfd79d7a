/** The order of the solid blob: clustering in pack_specs of src/pack.rs. */
module Cluster {
  import opened Bytes
  import opened Sorting
  import opened ContainerFormat

  // ---- Comparisons ----

  datatype Ordering = Less | Equal | Greater {
    function Then(next: Ordering): Ordering {
      if Equal? then next else this
    }

    function Flip(): Ordering {
      if Less? then Greater else if Greater? then Less else Equal
    }
  }

  function CmpInt(a: int, b: int): Ordering {
    if a < b then Less else if a == b then Equal else Greater
  }

  function CmpBool(a: bool, b: bool): Ordering {
    CmpInt(if a then 1 else 0, if b then 1 else 0)
  }

  /** Bytewise lexicographic order of strings. */
  function CmpText(a: Text, b: Text): Ordering {
    if a == [] || b == [] then CmpInt(|a|, |b|)
    else CmpInt(a[0], b[0]).Then(CmpText(a[1..], b[1..]))
  }

  lemma {:induction false} CmpTextEqual(a: Text, b: Text)
    ensures CmpText(a, b).Equal? <==> a == b
  {
    if a != [] && b != [] {
      CmpTextEqual(a[1..], b[1..]);
      assert a == [a[0]] + a[1..] && b == [b[0]] + b[1..];
    }
  }

  lemma {:induction false} CmpTextFlip(a: Text, b: Text)
    ensures CmpText(b, a) == CmpText(a, b).Flip()
  {
    if a != [] && b != [] {
      CmpTextFlip(a[1..], b[1..]);
    }
  }

  lemma {:induction false} CmpTextTransitive(a: Text, b: Text, c: Text)
    requires !CmpText(a, b).Greater? && !CmpText(b, c).Greater?
    ensures !CmpText(a, c).Greater?
    ensures CmpText(a, b).Less? || CmpText(b, c).Less? ==> CmpText(a, c).Less?
  {
    if a != [] && b != [] && c != [] && a[0] == b[0] == c[0] {
      CmpTextTransitive(a[1..], b[1..], c[1..]);
    }
  }

  /** At byte `k` the strings differ for the first time, and there `a` is lower. */
  predicate LowerAt(a: Text, b: Text, k: nat) {
    k < |a| && k < |b| && a[..k] == b[..k] && a[k] < b[k]
  }

  /** What the order of strings is: a proper prefix comes first, and otherwise the first difference decides. */
  lemma {:induction false} CmpTextMeaning(a: Text, b: Text)
    ensures CmpText(a, b).Less? <==> a < b || exists k: nat :: LowerAt(a, b, k)
  {
    if a != [] && b != [] {
      CmpTextMeaning(a[1..], b[1..]);
      assert a == [a[0]] + a[1..] && b == [b[0]] + b[1..];
      if a[0] < b[0] {
        assert LowerAt(a, b, 0);
      } else if a[0] == b[0] {
        assert a[1..] < b[1..] <==> a < b;
        if k: nat :| LowerAt(a[1..], b[1..], k) {
          assert a[..k + 1] == [a[0]] + a[1..][..k] && b[..k + 1] == [b[0]] + b[1..][..k];
          assert LowerAt(a, b, k + 1);
        }
        if k: nat :| LowerAt(a, b, k) {
          assert k > 0 && a[1..][..k - 1] == a[..k][1..] && b[1..][..k - 1] == b[..k][1..];
          assert LowerAt(a[1..], b[1..], k - 1);
        }
      } else {
        forall k: nat ensures !LowerAt(a, b, k) {
          if 0 < k < |a| && k < |b| {
            assert a[..k][0] == a[0] && b[..k][0] == b[0];
          }
        }
      }
    }
  }

  // ---- The comparator ----

  /** Cluster class and lowercased path. */
  datatype Key = Key(cls: nat, lower: Text)

  datatype Back = Top(i: nat) | Inner(zi: nat, ii: nat)

  datatype PoolItem = PoolItem(key: Key, blob: seq<byte>, back: Back)

  const SLASH: byte := 0x2F

  /** What follows the last slash, or the whole path. */
  function BasenameOf(lower: Text): (b: Text)
    ensures |b| <= |lower|
  {
    if lower == [] || lower[|lower| - 1] == SLASH then []
    else BasenameOf(lower[..|lower| - 1]) + [lower[|lower| - 1]]
  }

  lemma {:induction false} BasenameSplits(lower: Text)
    ensures var b, n := BasenameOf(lower), |lower| - |BasenameOf(lower)|;
            lower[n..] == b && SLASH !in b && (n == 0 || lower[n - 1] == SLASH)
  {
    if lower != [] && lower[|lower| - 1] != SLASH {
      var front := lower[..|lower| - 1];
      var n := |front| - |BasenameOf(front)|;
      BasenameSplits(front);
      assert lower == front + [lower[|lower| - 1]];
      assert lower[n..] == front[n..] + [lower[|lower| - 1]];
      assert n > 0 ==> lower[n - 1] == front[n - 1];
    }
  }

  function NameCount(pool: seq<PoolItem>, cls: nat, base: Text): nat {
    if pool == [] then 0
    else (if pool[0].key.cls == cls && BasenameOf(pool[0].key.lower) == base then 1 else 0) + NameCount(pool[1..], cls, base)
  }

  /** The basename occurs more than once within the class. */
  predicate Duplicated(pool: seq<PoolItem>, k: Key) {
    NameCount(pool, k.cls, BasenameOf(k.lower)) > 1
  }

  predicate HasName(x: PoolItem, cls: nat, base: Text) {
    x.key.cls == cls && BasenameOf(x.key.lower) == base
  }

  predicate TwoHaveName(pool: seq<PoolItem>, cls: nat, base: Text) {
    exists i, j :: 0 <= i < j < |pool| && HasName(pool[i], cls, base) && HasName(pool[j], cls, base)
  }

  lemma {:induction false} SomeHaveName(pool: seq<PoolItem>, cls: nat, base: Text)
    ensures NameCount(pool, cls, base) > 0 <==> exists x :: x in pool && HasName(x, cls, base)
  {
    hide BasenameOf;
    if pool != [] {
      var rest := pool[1..];
      SomeHaveName(rest, cls, base);
      if x :| x in rest && HasName(x, cls, base) {
        assert x in pool;
      }
      if x :| x in pool && HasName(x, cls, base) {
        assert x == pool[0] || x in rest;
      }
      assert pool[0] in pool;
    }
  }

  /** A basename is duplicated within a class exactly when two items have both. */
  lemma {:induction false} DuplicatedExact(pool: seq<PoolItem>, cls: nat, base: Text)
    ensures NameCount(pool, cls, base) > 1 <==> TwoHaveName(pool, cls, base)
  {
    hide BasenameOf;
    if pool != [] {
      var rest := pool[1..];
      DuplicatedExact(rest, cls, base);
      SomeHaveName(rest, cls, base);
      if NameCount(pool, cls, base) > 1 {
        if i, j :| 0 <= i < j < |rest| && HasName(rest[i], cls, base) && HasName(rest[j], cls, base) {
          assert HasName(pool[i + 1], cls, base) && HasName(pool[j + 1], cls, base);
        } else {
          var x :| x in rest && HasName(x, cls, base);
          var j :| 0 <= j < |rest| && rest[j] == x;
          assert HasName(pool[0], cls, base) && HasName(pool[j + 1], cls, base);
        }
      }
      if i, j :| 0 <= i < j < |pool| && HasName(pool[i], cls, base) && HasName(pool[j], cls, base) {
        assert pool[j] == rest[j - 1] && rest[j - 1] in rest;
        if i > 0 {
          assert pool[i] == rest[i - 1];
        }
      }
    }
  }

  /** The comparator of `sort_by`, given whether each side is duplicated. */
  function Compare(a: Key, dupA: bool, b: Key, dupB: bool): Ordering {
    CmpInt(a.cls, b.cls)
    .Then(CmpBool(dupB, dupA))
    .Then(if dupA && dupB then CmpText(BasenameOf(a.lower), BasenameOf(b.lower)) else Equal)
    .Then(CmpText(a.lower, b.lower))
  }

  /** The same order as one key: class, duplicated first, basename if duplicated, path. */
  datatype SortKey = SortKey(cls: nat, rank: nat, base: Text, path: Text)

  function SortKeyOf(k: Key, dup: bool): SortKey {
    SortKey(k.cls, if dup then 0 else 1, if dup then BasenameOf(k.lower) else [], k.lower)
  }

  function CmpSortKey(a: SortKey, b: SortKey): Ordering {
    CmpInt(a.cls, b.cls).Then(CmpInt(a.rank, b.rank)).Then(CmpText(a.base, b.base)).Then(CmpText(a.path, b.path))
  }

  lemma CompareIsKeyOrder(a: Key, dupA: bool, b: Key, dupB: bool)
    ensures Compare(a, dupA, b, dupB) == CmpSortKey(SortKeyOf(a, dupA), SortKeyOf(b, dupB))
  {
  }

  lemma SortKeyFlip(a: SortKey, b: SortKey)
    ensures CmpSortKey(b, a) == CmpSortKey(a, b).Flip()
  {
    CmpTextFlip(a.base, b.base);
    CmpTextFlip(a.path, b.path);
  }

  lemma SortKeyTransitive(a: SortKey, b: SortKey, c: SortKey)
    requires !CmpSortKey(a, b).Greater? && !CmpSortKey(b, c).Greater?
    ensures !CmpSortKey(a, c).Greater?
  {
    hide CmpText;
    if a.cls == b.cls == c.cls && a.rank == b.rank == c.rank {
      CmpTextTransitive(a.base, b.base, c.base);
      if CmpText(a.base, b.base).Equal? && CmpText(b.base, c.base).Equal? {
        CmpTextTransitive(a.path, b.path, c.path);
      }
    }
  }

  function KeyIn(pool: seq<PoolItem>, x: PoolItem): SortKey {
    SortKeyOf(x.key, Duplicated(pool, x.key))
  }

  function Before(pool: seq<PoolItem>): (PoolItem, PoolItem) -> bool {
    (a: PoolItem, b: PoolItem) => !Compare(a.key, Duplicated(pool, a.key), b.key, Duplicated(pool, b.key)).Greater?
  }

  lemma BeforeIsKeyOrder(pool: seq<PoolItem>, a: PoolItem, b: PoolItem)
    ensures Before(pool)(a, b) <==> !CmpSortKey(KeyIn(pool, a), KeyIn(pool, b)).Greater?
  {
    CompareIsKeyOrder(a.key, Duplicated(pool, a.key), b.key, Duplicated(pool, b.key));
  }

  lemma ComparatorIsTotalPreorder(pool: seq<PoolItem>)
    ensures TotalPreorder(Before(pool))
  {
    hide CmpSortKey;
    var le := Before(pool);
    forall x, y ensures le(x, y) || le(y, x) {
      BeforeIsKeyOrder(pool, x, y);
      BeforeIsKeyOrder(pool, y, x);
      SortKeyFlip(KeyIn(pool, x), KeyIn(pool, y));
    }
    forall x, y, z | le(x, y) && le(y, z) ensures le(x, z) {
      BeforeIsKeyOrder(pool, x, y);
      BeforeIsKeyOrder(pool, y, z);
      BeforeIsKeyOrder(pool, x, z);
      SortKeyTransitive(KeyIn(pool, x), KeyIn(pool, y), KeyIn(pool, z));
    }
  }

  // ---- The clustered pool ----

  function Clustered(pool: seq<PoolItem>): (s: seq<PoolItem>)
    ensures |s| == |pool|
  {
    StableSort(pool, Before(pool))
  }

  /** The items that compare equal to `x`. */
  function Ties(pool: seq<PoolItem>, x: PoolItem): PoolItem -> bool {
    y => Before(pool)(x, y) && Before(pool)(y, x)
  }

  lemma TiesStayInOrder(pool: seq<PoolItem>, x: PoolItem)
    ensures Filter(Clustered(pool), Ties(pool, x)) == Filter(pool, Ties(pool, x))
  {
    hide Before;
    ComparatorIsTotalPreorder(pool);
    forall y, z | Ties(pool, x)(y) && Ties(pool, x)(z) ensures Before(pool)(y, z) {
      assert Before(pool)(y, x) && Before(pool)(x, z);
    }
    SortStable(pool, Before(pool), Ties(pool, x));
  }

  /** Clustering moves blobs, neither loses, duplicates nor changes any, and keeps equal ones in order. */
  lemma ClusteredPermutes(pool: seq<PoolItem>)
    ensures multiset(Clustered(pool)) == multiset(pool)
    ensures Sorted(Clustered(pool), Before(pool))
    ensures forall x :: Filter(Clustered(pool), Ties(pool, x)) == Filter(pool, Ties(pool, x))
  {
    ComparatorIsTotalPreorder(pool);
    forall x ensures Filter(Clustered(pool), Ties(pool, x)) == Filter(pool, Ties(pool, x)) {
      TiesStayInOrder(pool, x);
    }
    SortPermutes(pool, Before(pool));
    SortSorts(pool, Before(pool));
  }

  /**
   * `a` may stand before `b`: by class; within a class duplicated names first; among these by basename; and then
   * by path.
   */
  predicate MayPrecede(pool: seq<PoolItem>, a: Key, b: Key) {
    var dupA := TwoHaveName(pool, a.cls, BasenameOf(a.lower));
    var dupB := TwoHaveName(pool, b.cls, BasenameOf(b.lower));
    var bases := CmpText(BasenameOf(a.lower), BasenameOf(b.lower));
    && a.cls <= b.cls
    && (a.cls == b.cls ==>
          && (dupB ==> dupA)
          && (dupA && dupB ==> !bases.Greater? && (bases.Equal? ==> !CmpText(a.lower, b.lower).Greater?))
          && (!dupA && !dupB ==> !CmpText(a.lower, b.lower).Greater?))
  }

  /** The clustered order, of two items the earlier and the later. */
  lemma ClusterOrder(pool: seq<PoolItem>, i: nat, j: nat)
    requires i < j < |pool|
    ensures MayPrecede(pool, Clustered(pool)[i].key, Clustered(pool)[j].key)
  {
    hide BasenameOf, NameCount, CmpText, TwoHaveName;
    var s := Clustered(pool);
    ClusteredPermutes(pool);
    DuplicatedExact(pool, s[i].key.cls, BasenameOf(s[i].key.lower));
    DuplicatedExact(pool, s[j].key.cls, BasenameOf(s[j].key.lower));
    assert Before(pool)(s[i], s[j]);
  }

  lemma SortKeyBetween(a: SortKey, b: SortKey, c: SortKey)
    requires !CmpSortKey(a, b).Greater? && !CmpSortKey(b, c).Greater?
    requires a.cls == c.cls && a.rank == c.rank && a.base == c.base
    ensures b.cls == a.cls && b.rank == a.rank && b.base == a.base
  {
    hide CmpText;
    CmpTextFlip(a.base, b.base);
    CmpTextEqual(a.base, b.base);
  }

  /** Blobs of one class sharing a duplicated basename lie back to back. */
  lemma DuplicatesContiguous(pool: seq<PoolItem>, i: nat, j: nat, k: nat)
    requires i <= j <= k < |pool|
    requires var s := Clustered(pool);
             && s[i].key.cls == s[k].key.cls && BasenameOf(s[i].key.lower) == BasenameOf(s[k].key.lower)
             && Duplicated(pool, s[i].key)
    ensures var s := Clustered(pool);
            s[j].key.cls == s[i].key.cls && BasenameOf(s[j].key.lower) == BasenameOf(s[i].key.lower)
  {
    hide CmpSortKey, BasenameOf, NameCount;
    var s := Clustered(pool);
    ClusteredPermutes(pool);
    if i < j < k {
      assert Before(pool)(s[i], s[j]) && Before(pool)(s[j], s[k]);
      BeforeIsKeyOrder(pool, s[i], s[j]);
      BeforeIsKeyOrder(pool, s[j], s[k]);
      SortKeyBetween(KeyIn(pool, s[i]), KeyIn(pool, s[j]), KeyIn(pool, s[k]));
    }
  }

  // ---- The counts as they are gathered ----

  type Counts = map<(nat, Text), nat>

  function Lookup(m: Counts, cls: nat, base: Text): nat {
    if (cls, base) in m then m[(cls, base)] else 0
  }

  method CountNames(pool: seq<PoolItem>) returns (counts: Counts)
    ensures forall cls, base :: Lookup(counts, cls, base) == NameCount(pool, cls, base)
  {
    hide BasenameOf;
    counts := map[];
    assert pool[0..] == pool;
    for i := 0 to |pool|
      invariant forall cls, base :: Lookup(counts, cls, base) + NameCount(pool[i..], cls, base) == NameCount(pool, cls, base)
    {
      assert pool[i..][1..] == pool[i + 1..];
      var k := pool[i].key;
      var base := BasenameOf(k.lower);
      counts := counts[(k.cls, base) := Lookup(counts, k.cls, base) + 1];
    }
  }

  function BeforeWith(counts: Counts): (PoolItem, PoolItem) -> bool {
    (a: PoolItem, b: PoolItem) =>
      var dupA := Lookup(counts, a.key.cls, BasenameOf(a.key.lower)) > 1;
      var dupB := Lookup(counts, b.key.cls, BasenameOf(b.key.lower)) > 1;
      !Compare(a.key, dupA, b.key, dupB).Greater?
  }

  lemma {:induction false} SameComparatorSameInsert<T(!new)>(x: T, s: seq<T>, p: (T, T) -> bool, q: (T, T) -> bool)
    requires forall a, b :: p(a, b) == q(a, b)
    ensures Insert(x, s, p) == Insert(x, s, q)
  {
    if s != [] {
      SameComparatorSameInsert(x, s[1..], p, q);
    }
  }

  lemma {:induction false} SameComparatorSameSort<T(!new)>(s: seq<T>, p: (T, T) -> bool, q: (T, T) -> bool)
    requires forall a, b :: p(a, b) == q(a, b)
    ensures StableSort(s, p) == StableSort(s, q)
  {
    if s != [] {
      SameComparatorSameSort(s[1..], p, q);
      SameComparatorSameInsert(s[0], StableSort(s[1..], p), p, q);
    }
  }

  method ClusterPool(pool: seq<PoolItem>) returns (sorted: seq<PoolItem>)
    ensures sorted == Clustered(pool)
  {
    hide BasenameOf, NameCount, StableSort;
    var counts := CountNames(pool);
    forall a, b ensures BeforeWith(counts)(a, b) == Before(pool)(a, b) {
      assert Lookup(counts, a.key.cls, BasenameOf(a.key.lower)) == NameCount(pool, a.key.cls, BasenameOf(a.key.lower));
      assert Lookup(counts, b.key.cls, BasenameOf(b.key.lower)) == NameCount(pool, b.key.cls, BasenameOf(b.key.lower));
    }
    SameComparatorSameSort(pool, BeforeWith(counts), Before(pool));
    sorted := StableSort(pool, BeforeWith(counts));
  }
}

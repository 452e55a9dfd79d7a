/** Delta coding of byte strings: src/delta.rs. */
module Delta {
  import opened Bytes

  function WrappingAdd(x: byte, y: byte): byte {
    (x as int + y as int) % 256
  }

  function WrappingSub(x: byte, y: byte): byte {
    (x as int - y as int) % 256
  }

  /** Each byte minus the one before it; the first minus `prev`. */
  function Differences(prev: byte, s: seq<byte>): (d: seq<byte>)
    ensures |d| == |s|
    decreases s
  {
    if s == [] then [] else [WrappingSub(s[0], prev)] + Differences(s[0], s[1..])
  }

  /** The running sums of `d`, starting from `acc`. */
  function Sums(acc: byte, d: seq<byte>): (s: seq<byte>)
    ensures |s| == |d|
    decreases d
  {
    if d == [] then [] else var x := WrappingAdd(acc, d[0]); [x] + Sums(x, d[1..])
  }

  lemma {:induction false} SumsOfDifferences(prev: byte, s: seq<byte>)
    ensures Sums(prev, Differences(prev, s)) == s
    decreases s
  {
    if s != [] {
      SumsOfDifferences(s[0], s[1..]);
      assert Differences(prev, s)[1..] == Differences(s[0], s[1..]);
      assert s == [s[0]] + s[1..];
    }
  }

  lemma {:induction false} DifferencesOfSums(prev: byte, d: seq<byte>)
    ensures Differences(prev, Sums(prev, d)) == d
    decreases d
  {
    if d != [] {
      var x := WrappingAdd(prev, d[0]);
      DifferencesOfSums(x, d[1..]);
      assert Sums(prev, d)[1..] == Sums(x, d[1..]);
      assert d == [d[0]] + d[1..];
    }
  }

  lemma {:induction false} DifferenceAt(prev: byte, s: seq<byte>, k: nat)
    requires k < |s|
    ensures Differences(prev, s)[k] == WrappingSub(s[k], if k == 0 then prev else s[k - 1])
    decreases s
  {
    if k > 0 {
      DifferenceAt(s[0], s[1..], k - 1);
    }
  }

  lemma {:induction false} SumAt(acc: byte, d: seq<byte>, k: nat)
    requires k < |d|
    ensures Sums(acc, d)[k] == WrappingAdd(if k == 0 then acc else Sums(acc, d)[k - 1], d[k])
    decreases d
  {
    if k > 0 {
      SumAt(WrappingAdd(acc, d[0]), d[1..], k - 1);
    }
  }

  /** Backward, so that every byte still sees its original predecessor. */
  method Encode(a: array<byte>, lo: nat, hi: nat)
    requires lo <= hi <= a.Length
    modifies a
    ensures a[..] == Splice(old(a[..]), lo, hi, Differences(0, old(a[..])[lo..hi]))
  {
    ghost var was := a[..];
    ghost var s := was[lo..hi];
    if hi - lo < 2 {
      assert a[..] == Splice(was, lo, hi, Differences(0, s));
      return;
    }
    var i := hi - lo;
    while i > 1
      invariant 1 <= i <= hi - lo
      invariant forall k :: 0 <= k < lo + i || hi <= k < a.Length ==> a[k] == was[k]
      invariant forall k :: i <= k < hi - lo ==> a[lo + k] == WrappingSub(s[k], s[k - 1])
    {
      i := i - 1;
      a[lo + i] := WrappingSub(a[lo + i], a[lo + i - 1]);
    }
    forall k | 0 <= k < hi - lo ensures a[lo + k] == Differences(0, s)[k] { DifferenceAt(0, s, k); }
    WindowEquals(a[..], was, lo, hi, Differences(0, s));
  }

  /** Forward, with the running sum in an accumulator. */
  method Decode(a: array<byte>, lo: nat, hi: nat)
    requires lo <= hi <= a.Length
    modifies a
    ensures a[..] == Splice(old(a[..]), lo, hi, Sums(0, old(a[..])[lo..hi]))
  {
    ghost var was := a[..];
    ghost var d := was[lo..hi];
    if lo < hi {
      var acc := a[lo];
      SumAt(0, d, 0);
      for i := 1 to hi - lo
        invariant forall k :: 0 <= k < lo || lo + i <= k < a.Length ==> a[k] == was[k]
        invariant forall k :: 0 <= k < i ==> a[lo + k] == Sums(0, d)[k]
        invariant acc == Sums(0, d)[i - 1]
      {
        SumAt(0, d, i);
        acc := WrappingAdd(acc, a[lo + i]);
        a[lo + i] := acc;
      }
    }
    WindowEquals(a[..], was, lo, hi, Sums(0, d));
  }

  lemma WindowEquals(cur: seq<byte>, was: seq<byte>, lo: nat, hi: nat, t: seq<byte>)
    requires lo <= hi <= |was| == |cur| && |t| == hi - lo
    requires forall k :: 0 <= k < lo || hi <= k < |cur| ==> cur[k] == was[k]
    requires forall k :: 0 <= k < hi - lo ==> cur[lo + k] == t[k]
    ensures cur == Splice(was, lo, hi, t)
  {
    assert cur[lo..hi] == t;
    assert cur == cur[..lo] + cur[lo..hi] + cur[hi..];
  }
}

/** Bytes, fixed-width integers and the little-endian codec every other module builds on. */
module Bytes {

  type byte = b: int | 0 <= b < 0x100
  type u16 = n: int | 0 <= n < 0x1_0000
  type u32 = n: int | 0 <= n < 0x1_0000_0000
  type u64 = n: int | 0 <= n < 0x1_0000_0000_0000_0000

  const U16_MAX: u16 := 0xFFFF
  const U32_MAX: u32 := 0xFFFF_FFFF
  const U64_MAX: u64 := 0xFFFF_FFFF_FFFF_FFFF

  datatype Option<+T> = None | Some(value: T)

  /** The error variants of src/error.rs that the modelled code can produce, without their text. */
  datatype Error = Lzma | BadArchive | TooLarge | Manifest

  datatype Result<+T> = Ok(value: T) | Err(error: Error) {
    predicate IsFailure() { Err? }

    function PropagateFailure<U>(): Result<U>
      requires Err?
    {
      Err(error)
    }

    function Extract(): T
      requires Ok?
    {
      value
    }
  }

  // ---- Little-endian integers ----

  function Pow256(n: nat): (p: nat)
    ensures p > 0
  {
    if n == 0 then 1 else 256 * Pow256(n - 1)
  }

  /** The low `n` bytes of `v`, least significant first. */
  function ToLE(n: nat, v: nat): (s: seq<byte>)
    ensures |s| == n
  {
    if n == 0 then [] else [v % 256] + ToLE(n - 1, v / 256)
  }

  function FromLE(s: seq<byte>): (v: nat)
    ensures v < Pow256(|s|)
  {
    if s == [] then 0 else s[0] + 256 * FromLE(s[1..])
  }

  /** Reading back a stored value gives its residue modulo the width: a cast that truncates. */
  lemma {:induction false} FromLEToLE(n: nat, v: nat)
    ensures FromLE(ToLE(n, v)) == v % Pow256(n)
  {
    if n > 0 {
      FromLEToLE(n - 1, v / 256);
      var p := Pow256(n - 1);
      assert ToLE(n, v)[1..] == ToLE(n - 1, v / 256);
      assert v % (256 * p) == v % 256 + 256 * ((v / 256) % p) by {
        ModOfProduct(v, p);
      }
    }
  }

  lemma ModOfProduct(v: nat, p: nat)
    requires p > 0
    ensures v % (256 * p) == v % 256 + 256 * ((v / 256) % p)
  {
    var h, l := v / 256, v % 256;
    var q, r := h / p, h % p;
    assert h == q * p + r;
    assert v == 256 * (q * p + r) + l;
    assert 256 * (q * p) == (256 * p) * q;
    var m := 256 * p;
    assert v == m * q + (256 * r + l);
    assert 0 <= 256 * r + l < m;
    ModUnique(v, m, q, 256 * r + l);
  }

  lemma ModUnique(v: int, m: int, q: int, r: int)
    requires v == m * q + r && 0 <= r < m
    ensures v % m == r && v / m == q
  {
    var k := v / m - q;
    assert v == m * (v / m) + v % m;
    assert m * (v / m) == m * q + m * k;
    MultipleInRange(m, k, r - v % m);
  }

  lemma MultipleInRange(m: int, k: int, d: int)
    requires m > 0 && m * k == d && -m < d < m
    ensures k == 0
  {
    if k > 0 {
      MultipleAtLeast(m, k);
    } else if k < 0 {
      MultipleAtLeast(m, -k);
    }
  }

  lemma {:induction false} MultipleAtLeast(m: int, k: int)
    requires m > 0 && k > 0
    ensures m * k >= m
    decreases k
  {
    if k > 1 {
      MultipleAtLeast(m, k - 1);
      assert m * k == m * (k - 1) + m;
    }
  }

  lemma {:induction false} ToLEFromLE(s: seq<byte>)
    ensures ToLE(|s|, FromLE(s)) == s
  {
    hide Pow256;
    if s != [] {
      ToLEFromLE(s[1..]);
      assert FromLE(s) % 256 == s[0] && FromLE(s) / 256 == FromLE(s[1..]);
      assert s == [s[0]] + s[1..];
    }
  }

  lemma LowByte(s: seq<byte>, b: int, t: int)
    requires s != [] && b == s[0] && t == FromLE(s[1..])
    ensures FromLE(s) == b + 256 * t
  {
  }

  lemma FirstFour(s: seq<byte>, b0: int, b1: int, b2: int, b3: int)
    requires |s| >= 4 && b0 == s[0] && b1 == s[1] && b2 == s[2] && b3 == s[3]
    ensures FromLE(s) == b0 + 0x100 * b1 + 0x1_0000 * b2 + 0x100_0000 * b3 + 0x1_0000_0000 * FromLE(s[4..])
  {
    hide FromLE;
    assert s[1..][1..] == s[2..] && s[2..][1..] == s[3..] && s[3..][1..] == s[4..];
    LowByte(s, b0, FromLE(s[1..]));
    LowByte(s[1..], b1, FromLE(s[2..]));
    LowByte(s[2..], b2, FromLE(s[3..]));
    LowByte(s[3..], b3, FromLE(s[4..]));
  }

  /** What little-endian means: of two, four or eight bytes the first counts least. */
  lemma LittleEndian(s: seq<byte>)
    ensures |s| == 2 ==> var b0: int, b1: int := s[0], s[1]; FromLE(s) == b0 + 0x100 * b1
    ensures |s| == 4 ==>
              var b0: int, b1: int, b2: int, b3: int := s[0], s[1], s[2], s[3];
              FromLE(s) == b0 + 0x100 * b1 + 0x1_0000 * b2 + 0x100_0000 * b3
    ensures |s| == 8 ==> FromLE(s) == FromLE(s[..4]) + 0x1_0000_0000 * FromLE(s[4..])
  {
    if |s| == 2 {
      assert s[1..][1..] == [];
      LowByte(s, s[0], FromLE(s[1..]));
      LowByte(s[1..], s[1], 0);
    } else if |s| == 4 {
      assert s[4..] == [];
      FirstFour(s, s[0], s[1], s[2], s[3]);
    } else if |s| == 8 {
      assert s[..4][4..] == [];
      FirstFour(s, s[0], s[1], s[2], s[3]);
      FirstFour(s[..4], s[0], s[1], s[2], s[3]);
    }
  }

  /** The low bits of a stored integer are in its first byte. */
  lemma LowBits(s: seq<byte>)
    requires s != []
    ensures FromLE(s) % 2 == s[0] % 2 && (FromLE(s) / 4) % 2 == (s[0] / 4) % 2
  {
    hide FromLE;
    var b: int, t: int := s[0], FromLE(s[1..]);
    LowByte(s, b, t);
    assert (b + 256 * t) / 4 == b / 4 + 64 * t;
  }

  // ---- Sequences ----

  /** `s` with the stretch from `lo` to `hi` replaced by `t`. */
  function Splice<T>(s: seq<T>, lo: nat, hi: nat, t: seq<T>): seq<T>
    requires lo <= hi <= |s|
  {
    s[..lo] + t + s[hi..]
  }

  lemma SpliceElsewhere<T>(s: seq<T>, lo: nat, hi: nat, t: seq<T>, a: nat, b: nat)
    requires lo <= hi <= |s| && |t| == hi - lo && a <= b <= |s| && (b <= lo || hi <= a)
    ensures |Splice(s, lo, hi, t)| == |s| && Splice(s, lo, hi, t)[a..b] == s[a..b]
  {
    var next := Splice(s, lo, hi, t);
    forall k | a <= k < b ensures next[k] == s[k] {
    }
  }

  function Prepend<T>(xs: seq<T>, r: Result<seq<T>>): Result<seq<T>>
  {
    match r
    case Err(e) => Err(e)
    case Ok(ys) => Ok(xs + ys)
  }

  /** A list built so far, put before the list that the rest of a loop yields together with a final state. */
  ghost function Continue<T, S>(done: seq<T>, rest: Result<(seq<T>, S)>): Result<(seq<T>, S)> {
    match rest
    case Err(e) => Err(e)
    case Ok(p) => Ok((done + p.0, p.1))
  }

  lemma ContinueNothing<T, S>(rest: Result<(seq<T>, S)>)
    ensures Continue([], rest) == rest
  {
    match rest
    case Err(_) =>
    case Ok(p) => assert [] + p.0 == p.0;
  }

  lemma ContinueTwice<T, S>(done: seq<T>, x: T, rest: Result<(seq<T>, S)>)
    ensures Continue(done, Continue([x], rest)) == Continue(done + [x], rest)
  {
    match rest
    case Err(_) =>
    case Ok(p) => assert done + ([x] + p.0) == (done + [x]) + p.0;
  }

  lemma PrependNothing<T>(r: Result<seq<T>>)
    ensures Prepend([], r) == r
  {
    match r
    case Err(_) =>
    case Ok(ys) => assert [] + ys == ys;
  }

  lemma PrependAssociative<T>(xs: seq<T>, ys: seq<T>, r: Result<seq<T>>)
    ensures Prepend(xs, Prepend(ys, r)) == Prepend(xs + ys, r)
  {
    match r
    case Err(_) =>
    case Ok(zs) => assert xs + (ys + zs) == (xs + ys) + zs;
  }
}

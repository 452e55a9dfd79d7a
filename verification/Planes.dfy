/** ARM64 byte planes (stride 4): src/planes.rs. */
module Planes {
  import opened Bytes

  /** Byte `k` of every instruction, in order. */
  function Plane(s: seq<byte>, k: nat): (p: seq<byte>)
    requires k < 4
    ensures |p| == |s| / 4
  {
    if |s| < 4 then [] else [s[k]] + Plane(s[4..], k)
  }

  lemma {:induction false} PlaneAt(s: seq<byte>, k: nat, i: nat)
    requires k < 4 && i < |s| / 4
    ensures Plane(s, k)[i] == s[4 * i + k]
  {
    if i > 0 {
      PlaneAt(s[4..], k, i - 1);
    }
  }

  function Tail(s: seq<byte>): seq<byte> {
    s[4 * (|s| / 4)..]
  }

  /** Planes in reverse byte order, then the tail. */
  function Split(s: seq<byte>): (t: seq<byte>)
    ensures |t| == |s|
  {
    Plane(s, 3) + Plane(s, 2) + Plane(s, 1) + Plane(s, 0) + Tail(s)
  }

  function Interleave(p3: seq<byte>, p2: seq<byte>, p1: seq<byte>, p0: seq<byte>): (s: seq<byte>)
    requires |p3| == |p2| == |p1| == |p0|
    ensures |s| == 4 * |p0|
  {
    if p0 == [] then [] else [p0[0], p1[0], p2[0], p3[0]] + Interleave(p3[1..], p2[1..], p1[1..], p0[1..])
  }

  lemma {:induction false} InterleaveAt(p3: seq<byte>, p2: seq<byte>, p1: seq<byte>, p0: seq<byte>, i: nat)
    requires |p3| == |p2| == |p1| == |p0| && i < |p0|
    ensures var s := Interleave(p3, p2, p1, p0);
            s[4 * i] == p0[i] && s[4 * i + 1] == p1[i] && s[4 * i + 2] == p2[i] && s[4 * i + 3] == p3[i]
  {
    if i > 0 {
      InterleaveAt(p3[1..], p2[1..], p1[1..], p0[1..], i - 1);
    }
  }

  /** Instructions reassembled from the planes, then the tail. */
  function Merge(t: seq<byte>): (s: seq<byte>)
    ensures |s| == |t|
  {
    var n := |t| / 4;
    Interleave(t[..n], t[n..2 * n], t[2 * n..3 * n], t[3 * n..4 * n]) + Tail(t)
  }

  lemma OneInstruction(four: seq<byte>, rest: seq<byte>, k: nat)
    requires |four| == 4 && k < 4
    ensures Plane(four + rest, k) == [four[k]] + Plane(rest, k)
    ensures Tail(four + rest) == Tail(rest)
  {
    assert (four + rest)[4..] == rest;
  }

  lemma {:induction false} InterleavePlanes(s: seq<byte>)
    ensures Interleave(Plane(s, 3), Plane(s, 2), Plane(s, 1), Plane(s, 0)) + Tail(s) == s
  {
    if |s| >= 4 {
      hide Plane, Tail;
      var four, rest := s[..4], s[4..];
      assert s == four + rest;
      OneInstruction(four, rest, 0); OneInstruction(four, rest, 1); OneInstruction(four, rest, 2); OneInstruction(four, rest, 3);
      InterleavePlanes(rest);
      assert four == [four[0], four[1], four[2], four[3]];
    }
  }

  lemma {:induction false} PlanesOfInterleave(p3: seq<byte>, p2: seq<byte>, p1: seq<byte>, p0: seq<byte>, tail: seq<byte>)
    requires |p3| == |p2| == |p1| == |p0| && |tail| < 4
    ensures var s := Interleave(p3, p2, p1, p0) + tail;
            Plane(s, 3) == p3 && Plane(s, 2) == p2 && Plane(s, 1) == p1 && Plane(s, 0) == p0 && Tail(s) == tail
  {
    if p0 != [] {
      hide Plane, Tail;
      var four := [p0[0], p1[0], p2[0], p3[0]];
      var rest := Interleave(p3[1..], p2[1..], p1[1..], p0[1..]) + tail;
      PlanesOfInterleave(p3[1..], p2[1..], p1[1..], p0[1..], tail);
      assert Interleave(p3, p2, p1, p0) + tail == four + rest;
      OneInstruction(four, rest, 0); OneInstruction(four, rest, 1); OneInstruction(four, rest, 2); OneInstruction(four, rest, 3);
    }
  }

  lemma MergeSplit(s: seq<byte>)
    ensures Merge(Split(s)) == s
  {
    var t, n := Split(s), |s| / 4;
    assert t[..n] == Plane(s, 3) && t[n..2 * n] == Plane(s, 2);
    assert t[2 * n..3 * n] == Plane(s, 1) && t[3 * n..4 * n] == Plane(s, 0) && Tail(t) == Tail(s);
    InterleavePlanes(s);
  }

  lemma SplitMerge(t: seq<byte>)
    ensures Split(Merge(t)) == t
  {
    hide Plane, Interleave;
    var n := |t| / 4;
    PlanesOfInterleave(t[..n], t[n..2 * n], t[2 * n..3 * n], t[3 * n..4 * n], Tail(t));
    CutInPlanes(t);
  }

  lemma CutInPlanes(t: seq<byte>)
    ensures var n := |t| / 4; t == t[..n] + t[n..2 * n] + t[2 * n..3 * n] + t[3 * n..4 * n] + Tail(t)
  {
  }

  ghost predicate SplitUpTo(out: seq<byte>, data: seq<byte>, i: nat) {
    && |out| == |data| && i <= |data| / 4
    && var n := |data| / 4;
       forall k :: 0 <= k < i ==> out[k] == data[4 * k + 3] && out[n + k] == data[4 * k + 2]
                                  && out[2 * n + k] == data[4 * k + 1] && out[3 * n + k] == data[4 * k]
  }

  lemma SplitStart(out: seq<byte>, data: seq<byte>)
    requires |out| == |data|
    ensures SplitUpTo(out, data, 0)
  {
  }

  lemma SplitTail(body: seq<byte>, out: seq<byte>, data: seq<byte>)
    requires SplitUpTo(body, data, |data| / 4) && |out| == |data|
    requires out[..4 * (|data| / 4)] == body[..4 * (|data| / 4)]
    ensures SplitUpTo(out, data, |data| / 4)
  {
    var n := |data| / 4;
    forall k | 0 <= k < 4 * n ensures out[k] == body[k] {
      assert out[k] == out[..4 * n][k];
    }
  }

  lemma SplitStep(out: seq<byte>, data: seq<byte>, i: nat)
    requires SplitUpTo(out, data, i) && i < |data| / 4
    ensures var n := |data| / 4;
            SplitUpTo(out[i := data[i * 4 + 3]][n + i := data[i * 4 + 2]][2 * n + i := data[i * 4 + 1]][3 * n + i := data[i * 4]], data, i + 1)
  {
  }

  lemma SplitDone(out: seq<byte>, data: seq<byte>)
    requires SplitUpTo(out, data, |data| / 4) && Tail(out) == Tail(data)
    ensures out == Split(data)
  {
    hide Plane;
    var n := |data| / 4;
    forall k | 0 <= k < n
      ensures out[k] == Plane(data, 3)[k] && out[n + k] == Plane(data, 2)[k]
              && out[2 * n + k] == Plane(data, 1)[k] && out[3 * n + k] == Plane(data, 0)[k]
    {
      PlaneAt(data, 3, k); PlaneAt(data, 2, k); PlaneAt(data, 1, k); PlaneAt(data, 0, k);
    }
    assert out[..n] == Plane(data, 3) && out[n..2 * n] == Plane(data, 2);
    assert out[2 * n..3 * n] == Plane(data, 1) && out[3 * n..4 * n] == Plane(data, 0);
    CutInPlanes(out);
  }

  method Encode(data: seq<byte>) returns (out: array<byte>)
    ensures fresh(out) && out[..] == Split(data)
  {
    hide SplitUpTo, Split;
    var n := |data| / 4;
    out := new byte[|data|];
    SplitStart(out[..], data);
    for i := 0 to n
      invariant SplitUpTo(out[..], data, i)
    {
      SplitStep(out[..], data, i);
      ghost var next := out[..][i := data[i * 4 + 3]][n + i := data[i * 4 + 2]][2 * n + i := data[i * 4 + 1]][3 * n + i := data[i * 4]];
      out[i], out[n + i], out[2 * n + i], out[3 * n + i] := data[i * 4 + 3], data[i * 4 + 2], data[i * 4 + 1], data[i * 4];
      assert out[..] == next;
    }
    ghost var body := out[..];
    for i := 4 * n to |data|
      invariant out[..4 * n] == body[..4 * n]
      invariant forall k :: 4 * n <= k < i ==> out[k] == data[k]
    {
      out[i] := data[i];
    }
    assert Tail(out[..]) == Tail(data);
    SplitTail(body, out[..], data);
    SplitDone(out[..], data);
  }

  lemma FourWritten(out: seq<byte>, body: seq<byte>, m: nat)
    requires m + 4 <= |out| && m + 4 <= |body| && out[..m] == body[..m]
    ensures out[m := body[m]][m + 1 := body[m + 1]][m + 2 := body[m + 2]][m + 3 := body[m + 3]][..m + 4] == body[..m + 4]
  {
    var next := out[m := body[m]][m + 1 := body[m + 1]][m + 2 := body[m + 2]][m + 3 := body[m + 3]];
    forall k | 0 <= k < m + 4 ensures next[k] == body[k] {
      if k < m {
        assert out[k] == out[..m][k] == body[..m][k];
      }
    }
  }

  method Decode(data: seq<byte>) returns (out: array<byte>)
    ensures fresh(out) && out[..] == Merge(data)
  {
    hide Interleave;
    var n := |data| / 4;
    out := new byte[|data|];
    var p3, p2, p1, p0, tail := data[..n], data[n..2 * n], data[2 * n..3 * n], data[3 * n..4 * n], data[4 * n..];
    ghost var body := Interleave(p3, p2, p1, p0);
    for i := 0 to n
      invariant out[..4 * i] == body[..4 * i]
    {
      InterleaveAt(p3, p2, p1, p0, i);
      assert out[..][..4 * i] == out[..4 * i];
      FourWritten(out[..], body, 4 * i);
      ghost var next := out[..][4 * i := p0[i]][4 * i + 1 := p1[i]][4 * i + 2 := p2[i]][4 * i + 3 := p3[i]];
      out[4 * i], out[4 * i + 1], out[4 * i + 2], out[4 * i + 3] := p0[i], p1[i], p2[i], p3[i];
      assert out[..] == next;
    }
    for i := 0 to |tail|
      invariant out[..4 * n] == body
      invariant forall k :: 0 <= k < i ==> out[4 * n + k] == tail[k]
    {
      out[4 * n + i] := tail[i];
    }
    assert out[..] == body + tail;
  }
}

/** The reversible transforms of one code section, and their application to a list of sections. */
module Transforms {
  import opened Bytes
  import opened Normalize
  import Delta
  import Planes

  /** What one section undergoes: branch normalization, or branch normalization, planes and deltas. */
  datatype Transform = ArmBranch | X86Branch | ArmPlaned

  // ---- Per-plane deltas ----

  function Coded(s: seq<byte>, dir: Direction): (r: seq<byte>)
    ensures |r| == |s|
  {
    if dir.Encode? then Delta.Differences(0, s) else Delta.Sums(0, s)
  }

  lemma CodedInverse(s: seq<byte>, dir: Direction)
    ensures Coded(Coded(s, dir), dir.Reverse()) == s
  {
    Delta.SumsOfDifferences(0, s);
    Delta.DifferencesOfSums(0, s);
  }

  function PerPlane(t: seq<byte>, dir: Direction): (r: seq<byte>)
    ensures |r| == |t|
  {
    var n := |t| / 4;
    Coded(t[..n], dir) + Coded(t[n..2 * n], dir) + Coded(t[2 * n..3 * n], dir) + Coded(t[3 * n..4 * n], dir) + Planes.Tail(t)
  }

  lemma PerPlaneInverse(t: seq<byte>, dir: Direction)
    ensures PerPlane(PerPlane(t, dir), dir.Reverse()) == t
  {
    hide Coded;
    var r, n := PerPlane(t, dir), |t| / 4;
    assert r[..n] == Coded(t[..n], dir) && r[n..2 * n] == Coded(t[n..2 * n], dir);
    assert r[2 * n..3 * n] == Coded(t[2 * n..3 * n], dir) && r[3 * n..4 * n] == Coded(t[3 * n..4 * n], dir);
    assert Planes.Tail(r) == Planes.Tail(t);
    CodedInverse(t[..n], dir);
    CodedInverse(t[n..2 * n], dir);
    CodedInverse(t[2 * n..3 * n], dir);
    CodedInverse(t[3 * n..4 * n], dir);
    Planes.CutInPlanes(t);
  }

  // ---- One section ----

  function Apply(x: Transform, s: seq<byte>, dir: Direction): (r: seq<byte>)
    ensures |r| == |s|
  {
    match x
    case ArmBranch => ArmBranches(s, 0, dir)
    case X86Branch => X86Branches(s, 0, dir)
    case ArmPlaned =>
      if dir.Encode? then PerPlane(Planes.Split(ArmBranches(s, 0, Encode)), Encode)
      else ArmBranches(Planes.Merge(PerPlane(s, Decode)), 0, Decode)
  }

  /** Every transform is undone by its reverse, on every byte string and in both orders. */
  lemma ApplyInverse(x: Transform, s: seq<byte>, dir: Direction)
    ensures Apply(x, Apply(x, s, dir), dir.Reverse()) == s
  {
    match x
    case ArmBranch => ArmInverse(s, 0, dir);
    case X86Branch => X86Inverse(s, 0, dir);
    case ArmPlaned =>
      if dir.Encode? {
        PerPlaneInverse(Planes.Split(ArmBranches(s, 0, Encode)), Encode);
        Planes.MergeSplit(ArmBranches(s, 0, Encode));
        ArmInverse(s, 0, Encode);
      } else {
        ArmInverse(Planes.Merge(PerPlane(s, Decode)), 0, Decode);
        Planes.SplitMerge(PerPlane(s, Decode));
        PerPlaneInverse(s, Decode);
      }
  }

  // ---- One section, on bytes ----

  /** `v` is byte `at` of `b` less the same byte of the instruction before, modulo 256. */
  predicate IsStep(v: byte, b: seq<byte>, at: nat)
    requires at < |b|
  {
    v as int == (b[at] as int - if at < 4 then 0 else b[at - 4] as int) % 256
  }

  lemma StepOf(t: seq<byte>, lo: nat, hi: nat, b: seq<byte>, k: nat, i: nat)
    requires k < 4 && i < |b| / 4 && lo + i < hi <= |t| && t[lo..hi] == Coded(Planes.Plane(b, k), Encode)
    ensures IsStep(t[lo + i], b, 4 * i + k)
  {
    hide Delta.Differences, Planes.Plane;
    var p := Planes.Plane(b, k);
    assert t[lo + i] == t[lo..hi][i];
    Delta.DifferenceAt(0, p, i);
    Planes.PlaneAt(b, k, i);
    if i > 0 {
      Planes.PlaneAt(b, k, i - 1);
    }
  }

  lemma PlanesOfSplit(b: seq<byte>)
    ensures var n, t := |b| / 4, PerPlane(Planes.Split(b), Encode);
            && t[..n] == Coded(Planes.Plane(b, 3), Encode) && t[n..2 * n] == Coded(Planes.Plane(b, 2), Encode)
            && t[2 * n..3 * n] == Coded(Planes.Plane(b, 1), Encode) && t[3 * n..4 * n] == Coded(Planes.Plane(b, 0), Encode)
            && t[4 * n..] == b[4 * n..]
  {
    hide Planes.Plane, Coded;
    var n, p := |b| / 4, Planes.Split(b);
    FiveParts(Planes.Plane(b, 3), Planes.Plane(b, 2), Planes.Plane(b, 1), Planes.Plane(b, 0), Planes.Tail(b), n);
    assert p[4 * n..] == Planes.Tail(p) == b[4 * n..];
    FiveParts(Coded(p[..n], Encode), Coded(p[n..2 * n], Encode), Coded(p[2 * n..3 * n], Encode), Coded(p[3 * n..4 * n], Encode),
              Planes.Tail(p), n);
  }

  lemma FiveParts(a: seq<byte>, b: seq<byte>, c: seq<byte>, d: seq<byte>, e: seq<byte>, n: nat)
    requires |a| == |b| == |c| == |d| == n
    ensures var t := a + b + c + d + e;
            t[..n] == a && t[n..2 * n] == b && t[2 * n..3 * n] == c && t[3 * n..4 * n] == d && t[4 * n..] == e
  {
  }

  /**
   * Planes and deltas: for each instruction of the normalized section, the four bytes go to four planes of `n`
   * bytes, the last byte first, each less the same byte of the instruction before; the tail is kept.
   */
  predicate IsPlaned(t: seq<byte>, b: seq<byte>) {
    var n := |b| / 4;
    && |t| == |b| && t[4 * n..] == b[4 * n..]
    && forall i :: 0 <= i < n ==>
         && IsStep(t[i], b, 4 * i + 3) && IsStep(t[n + i], b, 4 * i + 2)
         && IsStep(t[2 * n + i], b, 4 * i + 1) && IsStep(t[3 * n + i], b, 4 * i)
  }

  lemma PlanedBytes(s: seq<byte>)
    ensures IsPlaned(Apply(ArmPlaned, s, Encode), ArmBranches(s, 0, Encode))
  {
    hide ArmBranches, PerPlane, Coded, IsStep, Planes.Plane, Planes.Split, IsPlaned;
    var b := ArmBranches(s, 0, Encode);
    PlanesOfSplit(b);
    SlicesArePlaned(Apply(ArmPlaned, s, Encode), b, |b| / 4);
  }

  lemma SlicesArePlaned(t: seq<byte>, b: seq<byte>, n: nat)
    requires n == |b| / 4 && |t| == |b| && t[4 * n..] == b[4 * n..]
    requires t[..n] == Coded(Planes.Plane(b, 3), Encode) && t[n..2 * n] == Coded(Planes.Plane(b, 2), Encode)
    requires t[2 * n..3 * n] == Coded(Planes.Plane(b, 1), Encode) && t[3 * n..4 * n] == Coded(Planes.Plane(b, 0), Encode)
    ensures IsPlaned(t, b)
  {
    hide Coded, IsStep, Planes.Plane;
    forall i | 0 <= i < n
      ensures && IsStep(t[i], b, 4 * i + 3) && IsStep(t[n + i], b, 4 * i + 2)
              && IsStep(t[2 * n + i], b, 4 * i + 1) && IsStep(t[3 * n + i], b, 4 * i)
    {
      assert t[0..n] == t[..n];
      StepOf(t, 0, n, b, 3, i);
      StepOf(t, n, 2 * n, b, 2, i);
      StepOf(t, 2 * n, 3 * n, b, 1, i);
      StepOf(t, 3 * n, 4 * n, b, 0, i);
    }
  }

  // ---- A list of sections ----

  datatype Range = Range(off: nat, size: nat, xf: Transform) {
    function End(): nat { off + size }
  }

  predicate InBounds(rs: seq<Range>, len: nat) {
    forall r :: r in rs ==> r.End() <= len
  }

  predicate Apart(a: Range, b: Range) {
    a.End() <= b.off || b.End() <= a.off
  }

  predicate Disjoint(rs: seq<Range>) {
    forall i, j :: 0 <= i < j < |rs| ==> Apart(rs[i], rs[j])
  }

  function ApplyOne(s: seq<byte>, r: Range, dir: Direction): (t: seq<byte>)
    requires r.End() <= |s|
    ensures |t| == |s|
  {
    Splice(s, r.off, r.End(), Apply(r.xf, s[r.off..r.End()], dir))
  }

  /** The sections one after the other, in list order. */
  function ApplyAll(s: seq<byte>, rs: seq<Range>, dir: Direction): (t: seq<byte>)
    requires InBounds(rs, |s|)
    ensures |t| == |s|
    decreases rs
  {
    if rs == [] then s else ApplyAll(ApplyOne(s, rs[0], dir), rs[1..], dir)
  }

  lemma ApplyOneInverse(s: seq<byte>, r: Range, dir: Direction)
    requires r.End() <= |s|
    ensures ApplyOne(ApplyOne(s, r, dir), r, dir.Reverse()) == s
  {
    hide Apply;
    var t := Apply(r.xf, s[r.off..r.End()], dir);
    assert ApplyOne(s, r, dir)[r.off..r.End()] == t;
    ApplyInverse(r.xf, s[r.off..r.End()], dir);
  }

  lemma SplicesCommute(s: seq<byte>, a: nat, b: nat, c: nat, d: nat, t: seq<byte>, u: seq<byte>)
    requires a <= b <= c <= d <= |s| && |t| == b - a && |u| == d - c
    ensures Splice(Splice(s, a, b, t), c, d, u) == Splice(Splice(s, c, d, u), a, b, t)
    ensures Splice(s, a, b, t)[c..d] == s[c..d] && Splice(s, c, d, u)[a..b] == s[a..b]
  {
    assert Splice(Splice(s, a, b, t), c, d, u) == s[..a] + t + s[b..c] + u + s[d..];
    assert Splice(Splice(s, c, d, u), a, b, t) == s[..a] + t + s[b..c] + u + s[d..];
  }

  lemma ApartCommute(s: seq<byte>, a: Range, b: Range, f: Direction, g: Direction)
    requires a.End() <= |s| && b.End() <= |s| && Apart(a, b)
    ensures ApplyOne(ApplyOne(s, a, f), b, g) == ApplyOne(ApplyOne(s, b, g), a, f)
  {
    hide Apply, Splice;
    var t, u := Apply(a.xf, s[a.off..a.End()], f), Apply(b.xf, s[b.off..b.End()], g);
    if a.End() <= b.off {
      SplicesCommute(s, a.off, a.End(), b.off, b.End(), t, u);
    } else {
      SplicesCommute(s, b.off, b.End(), a.off, a.End(), u, t);
    }
  }

  lemma {:induction false} Bubble(s: seq<byte>, rs: seq<Range>, r: Range, f: Direction, g: Direction)
    requires InBounds(rs, |s|) && r.End() <= |s| && forall q :: q in rs ==> Apart(r, q)
    ensures ApplyOne(ApplyAll(s, rs, f), r, g) == ApplyAll(ApplyOne(s, r, g), rs, f)
    decreases rs
  {
    hide ApplyOne;
    if rs != [] {
      assert rs[0] in rs && Apart(r, rs[0]) && forall q :: q in rs[1..] ==> q in rs;
      Bubble(ApplyOne(s, rs[0], f), rs[1..], r, f, g);
      ApartCommute(s, rs[0], r, f, g);
    }
  }

  /** Undoing in the same order restores every byte, provided the ranges do not overlap. */
  lemma {:induction false} ApplyAllInverse(s: seq<byte>, rs: seq<Range>, dir: Direction)
    requires InBounds(rs, |s|) && Disjoint(rs)
    ensures ApplyAll(ApplyAll(s, rs, dir), rs, dir.Reverse()) == s
    decreases rs
  {
    hide ApplyOne;
    if rs != [] {
      var r, rest := rs[0], rs[1..];
      var s1 := ApplyOne(s, r, dir);
      Bubble(s1, rest, r, dir, dir.Reverse());
      ApplyOneInverse(s, r, dir);
      ApplyAllInverse(s, rest, dir);
    }
  }

  /** A byte that no range covers keeps its value. */
  lemma {:induction false} OutsideUnchanged(s: seq<byte>, rs: seq<Range>, dir: Direction, k: nat)
    requires InBounds(rs, |s|) && k < |s|
    requires forall r :: r in rs ==> k < r.off || r.End() <= k
    ensures ApplyAll(s, rs, dir)[k] == s[k]
    decreases rs
  {
    if rs != [] {
      OutsideUnchanged(ApplyOne(s, rs[0], dir), rs[1..], dir, k);
    }
  }

  /** Each of several disjoint ranges is transformed where it lies. */
  lemma {:induction false} RangeTransformed(s: seq<byte>, rs: seq<Range>, dir: Direction, k: nat)
    requires InBounds(rs, |s|) && Disjoint(rs) && k < |rs|
    ensures ApplyAll(s, rs, dir)[rs[k].off..rs[k].End()] == Apply(rs[k].xf, s[rs[k].off..rs[k].End()], dir)
    decreases rs
  {
    hide Apply, Splice;
    var r, q, rest := rs[0], rs[k], rs[1..];
    assert r in rs && q in rs;
    var x := Apply(r.xf, s[r.off..r.End()], dir);
    var s1 := ApplyOne(s, r, dir);
    var t := ApplyAll(s1, rest, dir);
    if k > 0 {
      assert Apart(rs[0], rs[k]) && rest[k - 1] == q;
      SpliceElsewhere(s, r.off, r.End(), x, q.off, q.End());
      RangeTransformed(s1, rest, dir, k - 1);
    } else {
      SpliceInside(s, r.off, r.End(), x);
      forall i | r.off <= i < r.End() ensures t[i] == s1[i] {
        forall p | p in rest ensures i < p.off || p.End() <= i {
          var j :| 0 <= j < |rest| && rest[j] == p;
          assert rs[j + 1] == p && Apart(rs[0], rs[j + 1]);
        }
        OutsideUnchanged(s1, rest, dir, i);
      }
      assert t[r.off..r.End()] == s1[r.off..r.End()];
    }
  }

  lemma SpliceInside(s: seq<byte>, lo: nat, hi: nat, x: seq<byte>)
    requires lo <= hi <= |s| && |x| == hi - lo
    ensures Splice(s, lo, hi, x)[lo..hi] == x
  {
  }

  lemma {:induction false} ApplyAllAppend(s: seq<byte>, rs: seq<Range>, qs: seq<Range>, dir: Direction)
    requires InBounds(rs, |s|) && InBounds(qs, |s|)
    ensures InBounds(rs + qs, |s|)
    ensures ApplyAll(s, rs + qs, dir) == ApplyAll(ApplyAll(s, rs, dir), qs, dir)
    decreases rs
  {
    if rs == [] {
      assert rs + qs == qs;
    } else {
      assert (rs + qs)[1..] == rs[1..] + qs;
      ApplyAllAppend(ApplyOne(s, rs[0], dir), rs[1..], qs, dir);
    }
  }

  lemma ApplyAllOne(s: seq<byte>, r: Range, dir: Direction)
    requires r.End() <= |s|
    ensures ApplyAll(s, [r], dir) == ApplyOne(s, r, dir)
  {
    hide ApplyOne;
    assert [r][1..] == [];
    assert ApplyAll(ApplyOne(s, r, dir), [], dir) == ApplyOne(s, r, dir);
  }

  function Reversed(rs: seq<Range>): seq<Range> {
    if rs == [] then [] else Reversed(rs[1..]) + [rs[0]]
  }

  lemma {:induction false} ReversedInBounds(rs: seq<Range>, len: nat)
    requires InBounds(rs, len)
    ensures InBounds(Reversed(rs), len)
  {
    if rs != [] {
      ReversedInBounds(rs[1..], len);
    }
  }

  /** Last applied, first undone would restore any ranges at all, overlapping or not. */
  lemma {:induction false} ReverseOrderUndoes(s: seq<byte>, rs: seq<Range>, dir: Direction)
    requires InBounds(rs, |s|)
    ensures InBounds(Reversed(rs), |s|) && ApplyAll(ApplyAll(s, rs, dir), Reversed(rs), dir.Reverse()) == s
    decreases rs
  {
    hide ApplyOne;
    ReversedInBounds(rs, |s|);
    if rs != [] {
      var r, rest := rs[0], rs[1..];
      var s1 := ApplyOne(s, r, dir);
      ReversedInBounds(rest, |s|);
      ReverseOrderUndoes(s1, rest, dir);
      ApplyAllAppend(ApplyAll(s1, rest, dir), Reversed(rest), [r], dir.Reverse());
      ApplyAllOne(s1, r, dir.Reverse());
      ApplyOneInverse(s, r, dir);
    }
  }

  lemma {:induction false} ReversedAppend(rs: seq<Range>, r: Range)
    ensures Reversed(rs + [r]) == [r] + Reversed(rs)
  {
    if rs == [] {
      assert [] + [r] == [r] && [r][1..] == [];
    } else {
      assert (rs + [r])[1..] == rs[1..] + [r];
      ReversedAppend(rs[1..], r);
    }
  }

  lemma {:induction false} ReversedTwice(rs: seq<Range>)
    ensures Reversed(Reversed(rs)) == rs
  {
    if rs != [] {
      ReversedAppend(Reversed(rs[1..]), rs[0]);
      ReversedTwice(rs[1..]);
    }
  }

  /** Transforming the ranges from the first to the last or from the last to the first gives the same bytes. */
  predicate OrderFree(s: seq<byte>, rs: seq<Range>, dir: Direction)
    requires InBounds(rs, |s|)
  {
    ReversedInBounds(rs, |s|);
    ApplyAll(s, rs, dir) == ApplyAll(s, Reversed(rs), dir)
  }

  /** Undoing in the same order, as the decoder does, is right exactly when the order did not matter. */
  lemma InOrderUndoExact(s: seq<byte>, rs: seq<Range>, dir: Direction)
    requires InBounds(rs, |s|)
    ensures ApplyAll(ApplyAll(s, rs, dir), rs, dir.Reverse()) == s <==> OrderFree(s, rs, dir)
  {
    hide ApplyAll;
    var e := ApplyAll(s, rs, dir);
    ReversedInBounds(rs, |s|);
    ReverseOrderUndoes(e, rs, dir.Reverse());
    ReverseOrderUndoes(s, Reversed(rs), dir);
    ReversedTwice(rs);
  }

  /** Disjoint ranges may be transformed in any order. */
  lemma DisjointIsOrderFree(s: seq<byte>, rs: seq<Range>, dir: Direction)
    requires InBounds(rs, |s|) && Disjoint(rs)
    ensures OrderFree(s, rs, dir)
  {
    hide ApplyAll, OrderFree;
    InOrderUndoExact(s, rs, dir);
    ApplyAllInverse(s, rs, dir);
  }

  /** With overlapping ranges the in-order undo is wrong: two x86 sections sharing four bytes. */
  lemma OverlapBreaksUndo()
    ensures var s: seq<byte> := [0xE8, 0xE8, 0, 0, 0, 0xFF];
            var rs := [Range(0, 5, X86Branch), Range(1, 5, X86Branch)];
            && InBounds(rs, |s|) && !Disjoint(rs)
            && ApplyAll(ApplyAll(s, rs, Encode), rs, Decode) != s
  {
    var s: seq<byte> := [0xE8, 0xE8, 0, 0, 0, 0xFF];
    var a, b := Range(0, 5, X86Branch), Range(1, 5, X86Branch);
    assert !Apart([a, b][0], [a, b][1]);
    hide ApplyAll, ApplyOne, Apply, Splice, X86Branches, ToLE;
    FirstHidesSecond(s);
    SecondUndoneAlone(s, a, b);
  }

  /** If the second range changes nothing after the first, undoing it changes the bytes again. */
  lemma SecondUndoneAlone(s: seq<byte>, a: Range, b: Range)
    requires a.End() <= |s| && b.End() <= |s| && b.size == 5 && b.xf == X86Branch && IsCallOrJump(s[b.off])
    requires ApplyOne(ApplyOne(s, a, Encode), b, Encode) == ApplyOne(s, a, Encode)
    ensures ApplyAll(ApplyAll(s, [a, b], Encode), [a, b], Decode) != s
  {
    hide ApplyAll, ApplyOne, Apply, Splice, X86Branches, ToLE;
    TwoRanges(s, a, b, Encode);
    TwoRanges(ApplyOne(s, a, Encode), a, b, Decode);
    ApplyOneInverse(s, a, Encode);
    CallMoves(s, b);
  }

  /** Normalizing the first section overwrites the opcode that starts the second. */
  lemma FirstHidesSecond(s: seq<byte>)
    requires s == [0xE8, 0xE8, 0, 0, 0, 0xFF]
    ensures var t := ApplyOne(s, Range(0, 5, X86Branch), Encode); ApplyOne(t, Range(1, 5, X86Branch), Encode) == t
  {
    var a, b := Range(0, 5, X86Branch), Range(1, 5, X86Branch);
    SmallOperands();
    hide X86Branches, ToLE, Rebase;
    assert s[0..5] == [0xE8] + ToLE(4, 0xE8);
    OneCall(0xE8, Encode);
    var t := ApplyOne(s, a, Encode);
    assert t == [0xE8, 0xED, 0, 0, 0, 0xFF];
    var x := t[1..6];
    NoCall(x, 0, Encode);
    assert ApplyOne(t, b, Encode) == t[..1] + x + t[6..];
  }

  lemma SmallOperands()
    ensures ToLE(4, 0xE8) == [0xE8, 0, 0, 0] && ToLE(4, 0xED) == [0xED, 0, 0, 0] && Rebase(0xE8, 5, Encode) == 0xED
  {
  }

  lemma CallMoves(s: seq<byte>, r: Range)
    requires r.End() <= |s| && r.size == 5 && r.xf == X86Branch && IsCallOrJump(s[r.off])
    ensures ApplyOne(s, r, Decode) != s
  {
    hide X86Branches;
    var x := s[r.off..r.End()];
    CallOperand(x, Decode);
    CallChanges(x[1..5]);
    assert ApplyOne(s, r, Decode)[r.off..r.End()] == X86Branches(x, 0, Decode);
  }

  lemma TwoRanges(s: seq<byte>, a: Range, b: Range, dir: Direction)
    requires a.End() <= |s| && b.End() <= |s|
    ensures ApplyAll(s, [a, b], dir) == ApplyOne(ApplyOne(s, a, dir), b, dir)
  {
    hide ApplyOne;
    var s1 := ApplyOne(s, a, dir);
    assert [a, b][1..] == [b] && [b][1..] == [];
    assert ApplyAll(s, [a, b], dir) == ApplyAll(s1, [b], dir);
    assert ApplyAll(ApplyOne(s1, b, dir), [], dir) == ApplyOne(s1, b, dir);
  }

  lemma NoCall(s: seq<byte>, pos: nat, dir: Direction)
    requires |s| == 5 && !IsCallOrJump(s[0])
    ensures X86Branches(s, pos, dir) == s
  {
    X86Tail(s[1..], pos + 1, dir);
    assert s == [s[0]] + s[1..];
  }

  lemma OneCall(operand: u32, dir: Direction)
    ensures X86Branches([0xE8] + ToLE(4, operand), 0, dir) == [0xE8] + ToLE(4, Rebase(operand, 5, dir))
  {
    hide ToLE;
    var s := [0xE8] + ToLE(4, operand);
    assert s[1..5] == ToLE(4, operand);
    WordBytes(operand);
  }

  lemma CallOperand(s: seq<byte>, dir: Direction)
    requires |s| == 5 && IsCallOrJump(s[0])
    ensures X86Branches(s, 0, dir)[1..5] == ToLE(4, Rebase(Word(s[1..5]), 5, dir))
  {
    hide ToLE, Word, Rebase;
  }

  lemma CallChanges(operand: seq<byte>)
    requires |operand| == 4
    ensures ToLE(4, Rebase(Word(operand), 5, Decode)) != operand
  {
    WordBytes(Rebase(Word(operand), 5, Decode));
  }

  // ---- The in-place forms ----

  lemma NestedSplice(s: seq<byte>, lo: nat, hi: nat, x: seq<byte>, b: nat, e: nat, u: seq<byte>)
    requires lo <= hi <= |s| && |x| == hi - lo && b <= e <= |x| && |u| == e - b
    ensures var t := Splice(s, lo, hi, x);
            t[lo + b..lo + e] == x[b..e] && Splice(t, lo + b, lo + e, u) == Splice(s, lo, hi, Splice(x, b, e, u))
  {
    var t := Splice(s, lo, hi, x);
    assert t[..lo + b] == s[..lo] + x[..b] && t[lo + e..] == x[e..] + s[hi..];
  }

  function PlaneStart(n: nat, p: nat): nat {
    if p == 0 then 0 else if p == 1 then n else if p == 2 then 2 * n else if p == 3 then 3 * n else 4 * n
  }

  /** The planes with the first `p` of them delta coded. */
  ghost function PartlyCoded(t: seq<byte>, p: nat, dir: Direction): (r: seq<byte>)
    requires p <= 4
    ensures |r| == |t|
  {
    var n := |t| / 4;
    if p == 0 then t
    else if p == 1 then Coded(t[..n], dir) + t[n..]
    else if p == 2 then Coded(t[..n], dir) + Coded(t[n..2 * n], dir) + t[2 * n..]
    else if p == 3 then Coded(t[..n], dir) + Coded(t[n..2 * n], dir) + Coded(t[2 * n..3 * n], dir) + t[3 * n..]
    else Coded(t[..n], dir) + Coded(t[n..2 * n], dir) + Coded(t[2 * n..3 * n], dir) + Coded(t[3 * n..4 * n], dir) + t[4 * n..]
  }

  lemma Advance(done: seq<byte>, t: seq<byte>, n: nat, c: seq<byte>)
    requires |done| + n <= |t| && |c| == n
    ensures var x, b := done + t[|done|..], |done|;
            x[b..b + n] == t[b..b + n] && Splice(x, b, b + n, c) == done + c + t[b + n..]
  {
    var x, b := done + t[|done|..], |done|;
    assert x[b..] == t[b..] && t[b..][n..] == t[b + n..];
    assert x[b + n..] == x[b..][n..];
  }

  lemma PlaneStep(t: seq<byte>, p: nat, dir: Direction)
    requires p < 4
    ensures var n := |t| / 4;
            var b := PlaneStart(n, p);
            var x := PartlyCoded(t, p, dir);
            && p * n == b && b + n == PlaneStart(n, p + 1) <= |t|
            && Splice(x, b, b + n, Coded(x[b..b + n], dir)) == PartlyCoded(t, p + 1, dir)
  {
    hide Coded, Splice;
    var n := |t| / 4;
    var c0, c1, c2, c3 := Coded(t[..n], dir), Coded(t[n..2 * n], dir), Coded(t[2 * n..3 * n], dir), Coded(t[3 * n..4 * n], dir);
    if p == 0 {
      assert t == [] + t[0..] && t[0..n] == t[..n] && [] + c0 == c0;
      Advance([], t, n, c0);
    } else if p == 1 {
      Advance(c0, t, n, c1);
    } else if p == 2 {
      Advance(c0 + c1, t, n, c2);
    } else {
      Advance(c0 + c1 + c2, t, n, c3);
    }
  }

  lemma NothingCoded(t: seq<byte>, dir: Direction)
    ensures PartlyCoded(t, 0, dir) == t
  {
  }

  lemma AllCoded(t: seq<byte>, dir: Direction)
    ensures PartlyCoded(t, 4, dir) == PerPlane(t, dir)
  {
    hide Coded;
  }

  lemma ShortCoded(s: seq<byte>, dir: Direction)
    requires |s| <= 1
    ensures Coded(s, dir) == s
  {
  }

  lemma ShortPlanes(t: seq<byte>, dir: Direction)
    requires |t| / 4 <= 1
    ensures PerPlane(t, dir) == t
  {
    hide Coded;
    var n := |t| / 4;
    ShortCoded(t[..n], dir); ShortCoded(t[n..2 * n], dir); ShortCoded(t[2 * n..3 * n], dir); ShortCoded(t[3 * n..4 * n], dir);
    Planes.CutInPlanes(t);
  }

  /** `if n_instr > 1`, each plane is delta coded where it lies. */
  method CodePlanes(a: array<byte>, lo: nat, hi: nat, dir: Direction)
    requires lo <= hi <= a.Length
    modifies a
    ensures a[..] == Splice(old(a[..]), lo, hi, PerPlane(old(a[..])[lo..hi], dir))
  {
    hide PerPlane, PartlyCoded, Splice, Delta.Differences, Delta.Sums;
    ghost var was := a[..];
    ghost var t := was[lo..hi];
    var n := (hi - lo) / 4;
    WholeWindow(was, lo, hi);
    if n > 1 {
      NothingCoded(t, dir);
      for p := 0 to 4
        invariant a[..] == Splice(was, lo, hi, PartlyCoded(t, p, dir))
      {
        var b := p * n;
        PlaneStep(t, p, dir);
        ghost var x := PartlyCoded(t, p, dir);
        NestedSplice(was, lo, hi, x, b, b + n, Coded(x[b..b + n], dir));
        if dir.Encode? {
          Delta.Encode(a, lo + b, lo + b + n);
        } else {
          Delta.Decode(a, lo + b, lo + b + n);
        }
      }
      AllCoded(t, dir);
    } else {
      ShortPlanes(t, dir);
    }
  }

  lemma WholeWindow(was: seq<byte>, lo: nat, hi: nat)
    requires lo <= hi <= |was|
    ensures Splice(was, lo, hi, was[lo..hi]) == was
  {
  }

  method CopyInto(a: array<byte>, lo: nat, hi: nat, src: array<byte>)
    requires lo <= hi <= a.Length && src.Length == hi - lo && src != a
    modifies a
    ensures a[..] == Splice(old(a[..]), lo, hi, src[..])
  {
    ghost var was := a[..];
    for i := 0 to hi - lo
      invariant forall k :: 0 <= k < lo || lo + i <= k < a.Length ==> a[k] == was[k]
      invariant forall k :: 0 <= k < i ==> a[lo + k] == src[k]
    {
      a[lo + i] := src[i];
    }
    Delta.WindowEquals(a[..], was, lo, hi, src[..]);
  }

  lemma SpliceTwice(s: seq<byte>, lo: nat, hi: nat, x: seq<byte>, y: seq<byte>)
    requires lo <= hi <= |s| && |x| == hi - lo == |y|
    ensures var t := Splice(s, lo, hi, x); t[lo..hi] == x && Splice(t, lo, hi, y) == Splice(s, lo, hi, y)
  {
  }

  /** Branch normalization, planes and per-plane deltas of one section, where it lies. */
  method PlaneSection(a: array<byte>, lo: nat, hi: nat)
    requires lo <= hi <= a.Length
    modifies a
    ensures a[..] == Splice(old(a[..]), lo, hi, Apply(ArmPlaned, old(a[..])[lo..hi], Encode))
  {
    hide Splice, PerPlane, Planes.Split, ArmBranches;
    ghost var was := a[..];
    Arm64Normalize(a, lo, hi);
    ghost var x := ArmBranches(was[lo..hi], 0, Encode);
    SpliceTwice(was, lo, hi, x, Planes.Split(x));
    var planed := Planes.Encode(a[..][lo..hi]);
    CopyInto(a, lo, hi, planed);
    SpliceTwice(was, lo, hi, Planes.Split(x), PerPlane(Planes.Split(x), Encode));
    CodePlanes(a, lo, hi, Encode);
  }

  /** The ARM64 arm of `undo_type4_section`, and `undo_type1` on a whole buffer. */
  method UnplaneSection(a: array<byte>, lo: nat, hi: nat)
    requires lo <= hi <= a.Length
    modifies a
    ensures a[..] == Splice(old(a[..]), lo, hi, Apply(ArmPlaned, old(a[..])[lo..hi], Decode))
  {
    hide Splice, PerPlane, Planes.Merge, ArmBranches;
    ghost var was := a[..];
    CodePlanes(a, lo, hi, Decode);
    ghost var x := PerPlane(was[lo..hi], Decode);
    SpliceTwice(was, lo, hi, x, Planes.Merge(x));
    var merged := Planes.Decode(a[..][lo..hi]);
    CopyInto(a, lo, hi, merged);
    SpliceTwice(was, lo, hi, Planes.Merge(x), ArmBranches(Planes.Merge(x), 0, Decode));
    Arm64Denormalize(a, lo, hi);
  }

  method ApplySection(a: array<byte>, r: Range, dir: Direction)
    requires r.End() <= a.Length
    modifies a
    ensures a[..] == ApplyOne(old(a[..]), r, dir)
  {
    hide Splice;
    match r.xf
    case ArmBranch =>
      if dir.Encode? {
        Arm64Normalize(a, r.off, r.End());
      } else {
        Arm64Denormalize(a, r.off, r.End());
      }
    case X86Branch => X86Rebase(a, r.off, r.End(), dir);
    case ArmPlaned =>
      if dir.Encode? {
        PlaneSection(a, r.off, r.End());
      } else {
        UnplaneSection(a, r.off, r.End());
      }
  }
}

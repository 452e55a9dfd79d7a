/** Branch normalization: src/normalize.rs. */
module Normalize {
  import opened Bytes

  /** Which way a transform runs: the encoder makes targets absolute, the decoder undoes it. */
  datatype Direction = Encode | Decode {
    function Reverse(): Direction {
      if Encode? then Decode else Encode
    }
  }

  // ---- 32-bit words ----
  // The bit fields of a word are written as quotients and remainders by powers of two:
  // `w >> k` is `w / 2^k`, `w & (2^k - 1)` is `w % 2^k`, and joining disjoint fields is addition.

  const P19 := 0x8_0000
  const P21 := 0x20_0000
  const P24 := 0x100_0000
  const P26 := 0x400_0000
  const P29 := 0x2000_0000
  const P31 := 0x8000_0000
  const P32 := 0x1_0000_0000

  /** Addition or subtraction of a base, wrapping at 32 bits. The base is itself a truncating cast. */
  function Rebase(value: u32, base: nat, dir: Direction): u32 {
    if dir.Encode? then (base % P32 + value) % P32 else (value - base % P32) % P32
  }

  lemma RebaseUndone(value: u32, base: nat, dir: Direction)
    ensures Rebase(Rebase(value, base, dir), base, dir.Reverse()) == value
  {
  }

  lemma WordBytes(w: u32)
    ensures FromLE(ToLE(4, w)) == w
  {
    FromLEToLE(4, w);
    assert Pow256(4) == P32;
  }

  function Word(b: seq<byte>): u32
    requires |b| == 4
  {
    assert Pow256(4) == P32;
    FromLE(b)
  }

  // ---- ARM64: one instruction ----

  /** `opcode_top` is 0x05 (B) or 0x25 (BL). */
  predicate IsBranch(w: u32) {
    w / P26 == 0x05 || w / P26 == 0x25
  }

  /** `w & 0x9F000000 == 0x90000000`: bit 31 set, bits 28..24 equal to 0b10000. */
  predicate IsAdrp(w: u32) {
    w / P31 == 1 && (w / P24) % 32 == 16
  }

  /** An immediate of `m == 2^bits` values, sign-extended to 32 bits: `| 0xFC000000` or `| 0xFFE00000`. */
  function SignExtend(imm: u32, m: nat): u32
    requires imm < m && (m == P26 || m == P21)
  {
    if imm >= m / 2 then imm + (P32 - m) else imm
  }

  function BranchTarget(w: u32): u32 {
    w % P26
  }

  function WithBranchTarget(w: u32, target: u32): u32 {
    (w / P26) * P26 + target % P26
  }

  /** The split immediate of ADRP, `immhi:immlo`. */
  function AdrpPage(w: u32): (p: u32)
    ensures p < P21
  {
    ((w / 32) % P19) * 4 + (w / P29) % 4
  }

  /** `w & 0x9F00001F` with a new `immhi` in bits 23..5 and a new `immlo` in bits 30..29. */
  function WithAdrpPage(w: u32, page: u32): u32 {
    (w / P31) * P31 + (page % 4) * P29 + ((w / P24) % 32) * P24 + ((page / 4) % P19) * 32 + w % 32
  }

  /** One instruction at a word offset `unit` in page `page`: B and BL move by words, ADRP by pages. */
  function RebaseArm(w: u32, unit: nat, page: nat, dir: Direction): u32 {
    if IsBranch(w) then WithBranchTarget(w, Rebase(SignExtend(BranchTarget(w), P26), unit, dir))
    else if IsAdrp(w) then WithAdrpPage(w, Rebase(SignExtend(AdrpPage(w), P21), page, dir))
    else w
  }

  lemma ClassesDisjoint(w: u32)
    ensures !(IsBranch(w) && IsAdrp(w))
  {
  }

  lemma BranchFields(w: u32, target: u32)
    ensures WithBranchTarget(w, target) / P26 == w / P26
    ensures BranchTarget(WithBranchTarget(w, target)) == target % P26
    ensures WithBranchTarget(w, BranchTarget(w)) == w
  {
  }

  /** The five fields of a word, joined: bits 4..0, 23..5, 28..24, 30..29 and 31. */
  lemma JoinedFields(rd: nat, hi: nat, op: nat, lo: nat, top: nat)
    requires rd < 32 && hi < P19 && op < 32 && lo < 4 && top < 2
    ensures var v := top * P31 + lo * P29 + op * P24 + hi * 32 + rd;
            && v < P32 && v % 32 == rd && (v / 32) % P19 == hi
            && (v / P24) % 32 == op && (v / P29) % 4 == lo && v / P31 == top
  {
    var v := top * P31 + lo * P29 + op * P24 + hi * 32 + rd;
    ModUnique(v, 32, hi + P19 * (op + 32 * (lo + 4 * top)), rd);
    ModUnique(v / 32, P19, op + 32 * (lo + 4 * top), hi);
    ModUnique(v, P24, op + 32 * (lo + 4 * top), hi * 32 + rd);
    ModUnique(v / P24, 32, lo + 4 * top, op);
    ModUnique(v, P29, lo + 4 * top, op * P24 + hi * 32 + rd);
    ModUnique(v / P29, 4, top, lo);
    ModUnique(v, P31, top, lo * P29 + op * P24 + hi * 32 + rd);
  }

  /** Every word is the join of its five fields. */
  lemma SplitFields(w: u32)
    ensures w == (w / P31) * P31 + ((w / P29) % 4) * P29 + ((w / P24) % 32) * P24 + ((w / 32) % P19) * 32 + w % 32
  {
    var w24 := w / P24;
    ModUnique(w / 32, P19, w24, w / 32 - P19 * w24);
    ModUnique(w24, 32, w / P29, w24 - 32 * (w / P29));
    ModUnique(w / P29, 4, w / P31, w / P29 - 4 * (w / P31));
  }

  lemma AdrpFields(w: u32, page: u32)
    ensures var v := WithAdrpPage(w, page);
            && AdrpPage(v) == page % P21 && v / P31 == w / P31
            && (v / P24) % 32 == (w / P24) % 32 && v % 32 == w % 32
    ensures WithAdrpPage(w, AdrpPage(w)) == w
  {
    JoinedFields(w % 32, (page / 4) % P19, (w / P24) % 32, page % 4, w / P31);
    ModUnique(page, P21, page / 4 / P19, ((page / 4) % P19) * 4 + page % 4);
    SplitFields(w);
    ModUnique(AdrpPage(w), 4, (w / 32) % P19, (w / P29) % 4);
  }

  /** Sign extension and the 32-bit wrap both vanish modulo the width of the field. */
  lemma RebaseLowBits(imm: u32, base: nat, dir: Direction, m: nat)
    requires imm < m && (m == P26 || m == P21)
    ensures var d := if dir.Encode? then base % P32 else -(base % P32);
            Rebase(SignExtend(imm, m), base, dir) % m == (imm + d) % m
  {
    var d := if dir.Encode? then base % P32 else -(base % P32);
    var x := SignExtend(imm, m) + d;
    var k := P32 / m;
    var e := if imm >= m / 2 then k - 1 else 0;
    ModUnique(x, m, k * (x / P32) + (x % P32) / m, (x % P32) % m);
    ModUnique(x, m, (imm + d) / m + e, (imm + d) % m);
  }

  lemma AddThenSubtract(x: int, d: int, m: nat)
    requires m == P26 || m == P21
    ensures ((x + d) % m - d) % m == x % m
  {
    ModUnique((x + d) % m - d, m, x / m - (x + d) / m, x % m);
  }

  /** A field of the low bits, sign-extended and rebased there and back, is the field again. */
  lemma RebaseField(imm: u32, base: nat, dir: Direction, m: nat)
    requires imm < m && (m == P26 || m == P21)
    ensures var there := Rebase(SignExtend(imm, m), base, dir) % m;
            Rebase(SignExtend(there, m), base, dir.Reverse()) % m == imm
  {
    hide Rebase, SignExtend;
    var d := if dir.Encode? then base % P32 else -(base % P32);
    RebaseLowBits(imm, base, dir, m);
    RebaseLowBits((imm + d) % m, base, dir.Reverse(), m);
    AddThenSubtract(imm, d, m);
  }

  lemma BranchKept(w: u32, target: u32)
    requires IsBranch(w)
    ensures IsBranch(WithBranchTarget(w, target))
  {
  }

  lemma AdrpKept(w: u32, page: u32)
    requires IsAdrp(w)
    ensures IsAdrp(WithAdrpPage(w, page)) && !IsBranch(WithAdrpPage(w, page))
  {
    AdrpFields(w, page);
    ClassesDisjoint(WithAdrpPage(w, page));
  }

  lemma BranchRestored(w: u32, t: u32, u: u32)
    requires u % P26 == BranchTarget(w)
    ensures WithBranchTarget(WithBranchTarget(w, t), u) == w
  {
  }

  lemma AdrpRestored(w: u32, p: u32, q: u32)
    requires q % P21 == AdrpPage(w)
    ensures WithAdrpPage(WithAdrpPage(w, p), q) == w
  {
    var v := WithAdrpPage(w, p);
    AdrpFields(w, p);
    AdrpFields(v, q);
    AdrpFields(w, q);
    SplitFields(w);
    SplitFields(WithAdrpPage(v, q));
    ModUnique(AdrpPage(w), 4, (w / 32) % P19, (w / P29) % 4);
    ModUnique(AdrpPage(WithAdrpPage(v, q)), 4, (WithAdrpPage(v, q) / 32) % P19, (WithAdrpPage(v, q) / P29) % 4);
  }

  /** Both directions are mutually inverse on every 32-bit word, at every address. */
  lemma RebaseArmInverse(w: u32, unit: nat, page: nat, dir: Direction)
    ensures RebaseArm(RebaseArm(w, unit, page, dir), unit, page, dir.Reverse()) == w
  {
    if IsBranch(w) {
      var t := Rebase(SignExtend(BranchTarget(w), P26), unit, dir);
      var v := WithBranchTarget(w, t);
      BranchKept(w, t);
      BranchFields(w, t);
      RebaseField(BranchTarget(w), unit, dir, P26);
      BranchRestored(w, t, Rebase(SignExtend(t % P26, P26), unit, dir.Reverse()));
    } else if IsAdrp(w) {
      var p := Rebase(SignExtend(AdrpPage(w), P21), page, dir);
      AdrpKept(w, p);
      AdrpFields(w, p);
      RebaseField(AdrpPage(w), page, dir, P21);
      AdrpRestored(w, p, Rebase(SignExtend(p % P21, P21), page, dir.Reverse()));
    }
  }

  /** The displacement that is added to a field: the base, or its negation. */
  function Displacement(base: nat, dir: Direction): int {
    if dir.Encode? then base % P32 else -(base % P32)
  }

  /**
   * What rebasing means: a branch field moves by `unit` modulo 2^26, a page field by `page` modulo 2^21,
   * so that encoding replaces a relative target by the absolute one; no other bit changes.
   */
  lemma RebaseArmMoves(w: u32, unit: nat, page: nat, dir: Direction)
    ensures var v := RebaseArm(w, unit, page, dir);
            && (IsBranch(w) ==> v / P26 == w / P26 && BranchTarget(v) == (BranchTarget(w) + Displacement(unit, dir)) % P26)
            && (IsAdrp(w) ==> v / P31 == w / P31 && (v / P24) % 32 == (w / P24) % 32 && v % 32 == w % 32
                              && AdrpPage(v) == (AdrpPage(w) + Displacement(page, dir)) % P21)
            && (!IsBranch(w) && !IsAdrp(w) ==> v == w)
  {
    if IsBranch(w) {
      ClassesDisjoint(w);
      BranchFields(w, Rebase(SignExtend(BranchTarget(w), P26), unit, dir));
      RebaseLowBits(BranchTarget(w), unit, dir, P26);
    } else if IsAdrp(w) {
      AdrpFields(w, Rebase(SignExtend(AdrpPage(w), P21), page, dir));
      RebaseLowBits(AdrpPage(w), page, dir, P21);
    }
  }

  /**
   * The same on the bits of the word, for B and BL (top six bits 000101 and 100101), for ADRP (bit 31 set,
   * bits 28..24 equal to 10000), and for all other words.
   */
  lemma RebaseArmBits(w: u32, unit: nat, page: nat, dir: Direction)
    ensures var v := RebaseArm(w, unit, page, dir);
            var du: int := if dir.Encode? then unit as int else -(unit as int);
            var dp: int := if dir.Encode? then page as int else -(page as int);
            var adrp := w >= 0x8000_0000 && (w / 0x100_0000) % 32 == 16;
            && (w / 0x400_0000 == 5 || w / 0x400_0000 == 0x25 ==>
                  && v / 0x400_0000 == w / 0x400_0000
                  && v % 0x400_0000 == (w % 0x400_0000 + du) % 0x400_0000)
            && (adrp ==>
                  && v >= 0x8000_0000 && (v / 0x100_0000) % 32 == 16 && v % 32 == w % 32
                  && (v / 32) % 0x8_0000 * 4 + (v / 0x2000_0000) % 4
                     == ((w / 32) % 0x8_0000 * 4 + (w / 0x2000_0000) % 4 + dp) % 0x20_0000)
            && (w / 0x400_0000 != 5 && w / 0x400_0000 != 0x25 && !adrp ==> v == w)
  {
    hide RebaseArm;
    assert IsBranch(w) <==> w / 0x400_0000 == 5 || w / 0x400_0000 == 0x25;
    assert IsAdrp(w) <==> w >= 0x8000_0000 && (w / 0x100_0000) % 32 == 16;
    RebaseArmMoves(w, unit, page, dir);
    if IsBranch(w) {
      BaseInField(w % 0x400_0000, unit, dir, P26);
    } else if IsAdrp(w) {
      BaseInField(AdrpPage(w), page, dir, P21);
    }
  }

  /** The truncation of the base to 32 bits vanishes too. */
  lemma BaseInField(x: nat, base: nat, dir: Direction, m: nat)
    requires m == P26 || m == P21
    ensures var b: int := if dir.Encode? then base as int else -(base as int);
            (x + Displacement(base, dir)) % m == (x + b) % m
  {
    var d: int, b: int := Displacement(base, dir), if dir.Encode? then base as int else -(base as int);
    var k: int := base / P32 * (P32 / m);
    var q: int := if dir.Encode? then k as int else -(k as int);
    assert b == d + m * q;
    ModUnique(x + b, m, (x + d) / m + q, (x + d) % m);
  }

  // ---- ARM64: a whole section ----

  /** Every complete word from index `idx` on, rebased; an incomplete last word stays as it is. */
  function ArmBranches(s: seq<byte>, idx: nat, dir: Direction): (r: seq<byte>)
    ensures |r| == |s|
  {
    if |s| < 4 then s
    else ToLE(4, RebaseArm(Word(s[..4]), idx, idx / 1024, dir)) + ArmBranches(s[4..], idx + 1, dir)
  }

  lemma {:induction false} ArmInverse(s: seq<byte>, idx: nat, dir: Direction)
    ensures ArmBranches(ArmBranches(s, idx, dir), idx, dir.Reverse()) == s
  {
    if |s| >= 4 {
      var w := Word(s[..4]);
      var v := RebaseArm(w, idx, idx / 1024, dir);
      var r := ArmBranches(s, idx, dir);
      assert r[..4] == ToLE(4, v) && r[4..] == ArmBranches(s[4..], idx + 1, dir);
      WordBytes(v);
      RebaseArmInverse(w, idx, idx / 1024, dir);
      ToLEFromLE(s[..4]);
      ArmInverse(s[4..], idx + 1, dir);
      assert s == s[..4] + s[4..];
    }
  }

  /** Word `k` of a section is rebased at its own address and page, and the tail is kept. */
  lemma {:induction false} ArmWordAt(s: seq<byte>, idx: nat, dir: Direction, k: nat)
    requires 4 * k + 4 <= |s|
    ensures ArmBranches(s, idx, dir)[4 * k..4 * k + 4] == ToLE(4, RebaseArm(Word(s[4 * k..4 * k + 4]), idx + k, (idx + k) / 1024, dir))
    decreases k
  {
    hide RebaseArm, Word, ToLE;
    var r := ArmBranches(s, idx, dir);
    if k == 0 {
      assert r[..4] == r[0..4] && s[..4] == s[0..4];
    } else {
      ArmWordAt(s[4..], idx + 1, dir, k - 1);
      assert s[4..][4 * (k - 1)..4 * (k - 1) + 4] == s[4 * k..4 * k + 4];
      assert r[4..][4 * (k - 1)..4 * (k - 1) + 4] == r[4 * k..4 * k + 4];
    }
  }

  lemma {:induction false} ArmTail(s: seq<byte>, idx: nat, dir: Direction)
    ensures var n := |s| / 4 * 4; ArmBranches(s, idx, dir)[n..] == s[n..]
  {
    hide RebaseArm, Word, ToLE;
    if |s| >= 4 {
      ArmTail(s[4..], idx + 1, dir);
      var n, r := |s| / 4 * 4, ArmBranches(s, idx, dir);
      assert s[4..][n - 4..] == s[n..] && r[4..][n - 4..] == r[n..];
    }
  }

  // ---- x86 ----

  predicate IsCallOrJump(b: byte) {
    b == 0xE8 || b == 0xE9
  }

  /** The scan from offset `pos`: an opcode and its operand are consumed together, the operand rebased. */
  function X86Branches(s: seq<byte>, pos: nat, dir: Direction): (r: seq<byte>)
    ensures |r| == |s|
  {
    if |s| < 5 then s
    else if IsCallOrJump(s[0]) then
      [s[0]] + ToLE(4, Rebase(Word(s[1..5]), pos + 5, dir)) + X86Branches(s[5..], pos + 5, dir)
    else [s[0]] + X86Branches(s[1..], pos + 1, dir)
  }

  lemma X86Tail(s: seq<byte>, pos: nat, dir: Direction)
    requires |s| < 5
    ensures X86Branches(s, pos, dir) == s
  {
  }

  /** The scan stops at byte `i`: an opcode with a whole operand that is not itself inside an operand. */
  predicate VisitedAt(s: seq<byte>, i: nat)
    decreases i
  {
    i + 5 <= |s| && IsCallOrJump(s[i]) && forall j: nat :: i < j + 5 && j < i ==> !VisitedAt(s, j)
  }

  /** Past a prefix that no visited operand leaves, the scan is that of the rest. */
  lemma {:induction false} VisitedPast(s: seq<byte>, c: nat, i: nat)
    requires c + i <= |s| && forall j: nat :: j < c && VisitedAt(s, j) ==> j + 5 <= c
    ensures VisitedAt(s, c + i) <==> VisitedAt(s[c..], i)
    decreases i
  {
    var rest := s[c..];
    forall j: nat | j < i ensures VisitedAt(s, c + j) <==> VisitedAt(rest, j) {
      VisitedPast(s, c, j);
    }
    if i + 5 <= |rest| && IsCallOrJump(rest[i]) {
      if VisitedAt(rest, i) {
        forall j: nat | c + i < j + 5 && j < c + i ensures !VisitedAt(s, j) {
          if j >= c {
            assert !VisitedAt(rest, j - c);
            assert VisitedAt(s, c + (j - c)) <==> VisitedAt(rest, j - c);
          }
        }
      }
      if VisitedAt(s, c + i) {
        forall j: nat | i < j + 5 && j < i ensures !VisitedAt(rest, j) {
          assert !VisitedAt(s, c + j);
        }
      }
    }
  }

  /** A visited operand is rebased at the address after it; a byte outside every visited operand is kept. */
  ghost predicate RewrittenAt(s: seq<byte>, r: seq<byte>, pos: nat, dir: Direction, i: nat)
    requires |r| == |s| && i < |s|
  {
    && (VisitedAt(s, i) ==> r[i + 1..i + 5] == ToLE(4, Rebase(Word(s[i + 1..i + 5]), pos + i + 5, dir)))
    && ((forall j: nat :: j < i && i < j + 5 ==> !VisitedAt(s, j)) ==> r[i] == s[i])
  }

  /** The rest of the scan, seen from the start. */
  lemma RewrittenPast(s: seq<byte>, r: seq<byte>, pos: nat, dir: Direction, c: nat, i: nat)
    requires |r| == |s| && c + i < |s| && forall j: nat :: j < c && VisitedAt(s, j) ==> j + 5 <= c
    requires RewrittenAt(s[c..], r[c..], pos + c, dir, i)
    ensures RewrittenAt(s, r, pos, dir, c + i)
  {
    hide Rebase, Word, ToLE;
    VisitedPast(s, c, i);
    if VisitedAt(s, c + i) {
      assert s[c..][i + 1..i + 5] == s[c + i + 1..c + i + 5] && r[c..][i + 1..i + 5] == r[c + i + 1..c + i + 5];
    }
    if forall j: nat :: j < c + i && c + i < j + 5 ==> !VisitedAt(s, j) {
      forall j: nat | j < i && i < j + 5 ensures !VisitedAt(s[c..], j) {
        VisitedPast(s, c, j);
        assert !VisitedAt(s, c + j);
      }
    }
  }

  /** What the scan does, byte by byte. */
  lemma {:induction false} X86Rewrites(s: seq<byte>, pos: nat, dir: Direction, i: nat)
    requires i < |s|
    ensures RewrittenAt(s, X86Branches(s, pos, dir), pos, dir, i)
  {
    hide Rebase, Word, ToLE, VisitedAt, RewrittenAt;
    var r := X86Branches(s, pos, dir);
    if |s| < 5 {
      assert RewrittenAt(s, s, pos, dir, i) by { ShortRewritten(s, pos, dir, i); }
    } else if IsCallOrJump(s[0]) {
      OpcodeFirst(s);
      if i >= 5 {
        assert r[5..] == X86Branches(s[5..], pos + 5, dir);
        X86Rewrites(s[5..], pos + 5, dir, i - 5);
        RewrittenPast(s, r, pos, dir, 5, i - 5);
      } else {
        assert r[1..5] == ToLE(4, Rebase(Word(s[1..5]), pos + 5, dir));
        OperandRewritten(s, r, pos, dir, i);
      }
    } else {
      OtherFirst(s);
      if i >= 1 {
        assert r[1..] == X86Branches(s[1..], pos + 1, dir);
        X86Rewrites(s[1..], pos + 1, dir, i - 1);
        RewrittenPast(s, r, pos, dir, 1, i - 1);
      } else {
        OtherRewritten(s, r, pos, dir);
      }
    }
  }

  /** Some visited opcode before byte `i` has it in its operand. */
  ghost predicate InOperand(s: seq<byte>, i: nat) {
    exists j: nat :: j < i < j + 5 && VisitedAt(s, j)
  }

  /** The same on bytes: 0xE8 and 0xE9 start an operand, which moves by the offset behind it modulo 2^32. */
  lemma X86Bytes(s: seq<byte>, pos: nat, dir: Direction, i: nat)
    requires i < |s|
    ensures VisitedAt(s, i) <==> i + 5 <= |s| && (s[i] == 0xE8 || s[i] == 0xE9) && !InOperand(s, i)
    ensures var r := X86Branches(s, pos, dir);
            var d: int := if dir.Encode? then pos + i + 5 else -(pos + i + 5);
            VisitedAt(s, i) ==> FromLE(r[i + 1..i + 5]) == (FromLE(s[i + 1..i + 5]) + d) % 0x1_0000_0000
  {
    hide X86Branches, FromLE, ToLE, Rebase;
    X86Rewrites(s, pos, dir, i);
    if !InOperand(s, i) {
      forall j: nat | i < j + 5 && j < i ensures !VisitedAt(s, j) {
      }
    }
    if VisitedAt(s, i) {
      var w, a := Word(s[i + 1..i + 5]), pos + i + 5;
      WordBytes(Rebase(w, a, dir));
      RebaseWraps(w, a, dir);
    }
  }

  lemma RebaseWraps(w: u32, a: nat, dir: Direction)
    ensures var b: int := if dir.Encode? then a as int else -(a as int);
            Rebase(w, a, dir) == (w + b) % P32
  {
    var b: int := if dir.Encode? then a as int else -(a as int);
    var d: int := if dir.Encode? then (a % P32) as int else -((a % P32) as int);
    var q: int := if dir.Encode? then (a / P32) as int else -((a / P32) as int);
    assert b == d + P32 * q;
    ModUnique(w + b, P32, (w + d) / P32 + q, (w + d) % P32);
  }

  lemma ShortRewritten(s: seq<byte>, pos: nat, dir: Direction, i: nat)
    requires i < |s| < 5
    ensures RewrittenAt(s, s, pos, dir, i)
  {
  }

  lemma OpcodeFirst(s: seq<byte>)
    requires |s| >= 5 && IsCallOrJump(s[0])
    ensures VisitedAt(s, 0) && forall j: nat :: 0 < j < 5 ==> !VisitedAt(s, j)
  {
    forall j: nat | 0 < j < 5 ensures !VisitedAt(s, j) {
      assert VisitedAt(s, 0) && j < 0 + 5;
    }
  }

  lemma OtherFirst(s: seq<byte>)
    requires |s| >= 5 && !IsCallOrJump(s[0])
    ensures !VisitedAt(s, 0)
  {
  }

  lemma OperandRewritten(s: seq<byte>, r: seq<byte>, pos: nat, dir: Direction, i: nat)
    requires |r| == |s| >= 5 && i < 5 && VisitedAt(s, 0) && forall j: nat :: 0 < j < 5 ==> !VisitedAt(s, j)
    requires r[0] == s[0] && r[1..5] == ToLE(4, Rebase(Word(s[1..5]), pos + 5, dir))
    ensures RewrittenAt(s, r, pos, dir, i)
  {
    hide Rebase, Word, ToLE, VisitedAt;
  }

  lemma OtherRewritten(s: seq<byte>, r: seq<byte>, pos: nat, dir: Direction)
    requires |r| == |s| >= 5 && !VisitedAt(s, 0) && r[0] == s[0]
    ensures RewrittenAt(s, r, pos, dir, 0)
  {
    hide Rebase, Word, ToLE, VisitedAt;
  }

  /** Both scans visit the same opcodes: operands are skipped and opcode bytes kept. */
  lemma {:induction false} SameVisits(s: seq<byte>, pos: nat, dir: Direction, i: nat)
    requires i <= |s|
    ensures VisitedAt(s, i) <==> VisitedAt(X86Branches(s, pos, dir), i)
    decreases i
  {
    hide Rebase, Word, ToLE, X86Branches;
    var r := X86Branches(s, pos, dir);
    forall j: nat | j < i ensures VisitedAt(s, j) <==> VisitedAt(r, j) {
      SameVisits(s, pos, dir, j);
    }
    if i + 5 <= |s| {
      X86Rewrites(s, pos, dir, i);
    }
  }

  lemma {:induction false} X86Inverse(s: seq<byte>, pos: nat, dir: Direction)
    ensures X86Branches(X86Branches(s, pos, dir), pos, dir.Reverse()) == s
  {
    var r := X86Branches(s, pos, dir);
    if |s| < 5 {
    } else if IsCallOrJump(s[0]) {
      var w := Word(s[1..5]);
      var v := Rebase(w, pos + 5, dir);
      assert r[0] == s[0] && r[1..5] == ToLE(4, v) && r[5..] == X86Branches(s[5..], pos + 5, dir);
      WordBytes(v);
      RebaseUndone(w, pos + 5, dir);
      ToLEFromLE(s[1..5]);
      X86Inverse(s[5..], pos + 5, dir);
      assert s == [s[0]] + s[1..5] + s[5..];
    } else {
      assert r[0] == s[0] && r[1..] == X86Branches(s[1..], pos + 1, dir);
      X86Inverse(s[1..], pos + 1, dir);
      assert s == [s[0]] + s[1..];
    }
  }

  // ---- The in-place loops ----

  /** A loop over the window from `lo` to `hi` of a buffer that held `was` has finished its first `i` bytes. */
  ghost predicate ArmProgress(cur: seq<byte>, was: seq<byte>, lo: nat, hi: nat, i: nat, dir: Direction) {
    && lo + i <= hi <= |was| == |cur| && i % 4 == 0
    && cur[..lo] == was[..lo] && cur[lo + i..] == was[lo + i..]
    && ArmBranches(was[lo..hi], 0, dir) == cur[lo..lo + i] + ArmBranches(was[lo + i..hi], i / 4, dir)
  }

  lemma ArmStart(was: seq<byte>, lo: nat, hi: nat, dir: Direction)
    requires lo <= hi <= |was|
    ensures ArmProgress(was, was, lo, hi, 0, dir)
  {
    assert was[lo + 0..hi] == was[lo..hi];
  }

  /** One word of the section done. */
  lemma ArmWord(cur: seq<byte>, was: seq<byte>, lo: nat, hi: nat, i: nat, dir: Direction)
    requires ArmProgress(cur, was, lo, hi, i, dir) && lo + i + 4 <= hi
    ensures var v := RebaseArm(Word(cur[lo + i..lo + i + 4]), i / 4, i / 4096, dir);
            ArmProgress(Splice(cur, lo + i, lo + i + 4, ToLE(4, v)), was, lo, hi, i + 4, dir)
  {
    hide RebaseArm, IsBranch, IsAdrp, Word, ToLE;
    var b := cur[lo + i..lo + i + 4];
    var v := RebaseArm(Word(b), i / 4, i / 4096, dir);
    var next := Splice(cur, lo + i, lo + i + 4, ToLE(4, v));
    var rest := was[lo + i..hi];
    assert rest[..4] == was[lo + i..][..4] == cur[lo + i..][..4] == b;
    assert rest[4..] == was[lo + i + 4..hi] && (i / 4) / 1024 == i / 4096;
    assert next[lo..lo + i + 4] == cur[lo..lo + i] + ToLE(4, v);
    assert next[lo + i + 4..] == cur[lo + i..][4..] == was[lo + i + 4..];
    assert next[..lo] == cur[..lo];
  }

  lemma ArmStep(cur: seq<byte>, next: seq<byte>, was: seq<byte>, lo: nat, hi: nat, i: nat, dir: Direction)
    requires ArmProgress(cur, was, lo, hi, i, dir) && lo + i + 4 <= hi
    requires var w := Word(cur[lo + i..lo + i + 4]);
             var v := RebaseArm(w, i / 4, i / 4096, dir);
             next == if IsBranch(w) || IsAdrp(w) then Splice(cur, lo + i, lo + i + 4, ToLE(4, v)) else cur
    ensures ArmProgress(next, was, lo, hi, i + 4, dir)
  {
    hide RebaseArm, IsBranch, IsAdrp, Word, ToLE, ArmBranches;
    var b := cur[lo + i..lo + i + 4];
    ArmWord(cur, was, lo, hi, i, dir);
    if !IsBranch(Word(b)) && !IsAdrp(Word(b)) {
      Unchanged(b, i / 4, i / 4096, dir);
      assert Splice(cur, lo + i, lo + i + 4, b) == cur;
    }
  }

  lemma Unchanged(b: seq<byte>, unit: nat, page: nat, dir: Direction)
    requires |b| == 4 && !IsBranch(Word(b)) && !IsAdrp(Word(b))
    ensures ToLE(4, RebaseArm(Word(b), unit, page, dir)) == b
  {
    ToLEFromLE(b);
  }

  lemma ArmDone(cur: seq<byte>, was: seq<byte>, lo: nat, hi: nat, i: nat, dir: Direction)
    requires ArmProgress(cur, was, lo, hi, i, dir) && hi < lo + i + 4
    ensures cur == Splice(was, lo, hi, ArmBranches(was[lo..hi], 0, dir))
  {
    hide RebaseArm, Word, ToLE, Splice;
    WindowDone(cur, was, lo, hi, i, ArmBranches(was[lo..hi], 0, dir));
  }

  /** The window is finished when only bytes that stay are left. */
  lemma WindowDone(cur: seq<byte>, was: seq<byte>, lo: nat, hi: nat, i: nat, x: seq<byte>)
    requires lo + i <= hi <= |was| == |cur| && cur[..lo] == was[..lo] && cur[lo + i..] == was[lo + i..]
    requires x == cur[lo..lo + i] + was[lo + i..hi]
    ensures cur == Splice(was, lo, hi, x)
  {
    assert cur == cur[..lo] + cur[lo..lo + i] + cur[lo + i..];
    assert was[lo + i..] == was[lo + i..hi] + was[hi..];
  }

  method StoreAt(a: array<byte>, at: nat, w: u32)
    requires at + 4 <= a.Length
    modifies a
    ensures a[..] == Splice(old(a[..]), at, at + 4, ToLE(4, w))
  {
    var b := ToLE(4, w);
    a[at], a[at + 1], a[at + 2], a[at + 3] := b[0], b[1], b[2], b[3];
  }

  /** Indexed form: `i` counts bytes, and `i >> 12` is the page. */
  method Arm64Normalize(a: array<byte>, lo: nat, hi: nat)
    requires lo <= hi <= a.Length
    modifies a
    ensures a[..] == Splice(old(a[..]), lo, hi, ArmBranches(old(a[..])[lo..hi], 0, Encode))
  {
    hide RebaseArm, Word, ToLE, IsBranch, IsAdrp, ArmBranches, ArmProgress, Splice;
    ghost var was := a[..];
    var size := hi - lo;
    var i := 0;
    ArmStart(was, lo, hi, Encode);
    while i + 3 < size
      invariant i <= size && ArmProgress(a[..], was, lo, hi, i, Encode)
    {
      ghost var cur := a[..];
      var w := Word(a[..][lo + i..lo + i + 4]);
      var v := RebaseArm(w, i / 4, i / 4096, Encode);
      if IsBranch(w) || IsAdrp(w) {
        StoreAt(a, lo + i, v);
      }
      ArmStep(cur, a[..], was, lo, hi, i, Encode);
      i := i + 4;
    }
    ArmDone(a[..], was, lo, hi, i, Encode);
  }

  /** Chunked form: `idx` counts words, and `idx >> 10` is the page. */
  method Arm64Denormalize(a: array<byte>, lo: nat, hi: nat)
    requires lo <= hi <= a.Length
    modifies a
    ensures a[..] == Splice(old(a[..]), lo, hi, ArmBranches(old(a[..])[lo..hi], 0, Decode))
  {
    hide RebaseArm, Word, ToLE, IsBranch, IsAdrp, ArmBranches, ArmProgress, Splice;
    ghost var was := a[..];
    ArmStart(was, lo, hi, Decode);
    for idx := 0 to (hi - lo) / 4
      invariant ArmProgress(a[..], was, lo, hi, 4 * idx, Decode)
    {
      ghost var cur := a[..];
      var at := lo + 4 * idx;
      var w := Word(a[..][at..at + 4]);
      var v := RebaseArm(w, idx, idx / 1024, Decode);
      if IsBranch(w) || IsAdrp(w) {
        StoreAt(a, at, v);
      }
      assert (4 * idx) / 4 == idx && (4 * idx) / 4096 == idx / 1024;
      ArmStep(cur, a[..], was, lo, hi, 4 * idx, Decode);
    }
    ArmDone(a[..], was, lo, hi, 4 * ((hi - lo) / 4), Decode);
  }

  // ---- x86: the in-place loop ----

  ghost predicate X86Progress(cur: seq<byte>, was: seq<byte>, lo: nat, hi: nat, i: nat, dir: Direction) {
    && lo + i <= hi <= |was| == |cur|
    && cur[..lo] == was[..lo] && cur[lo + i..] == was[lo + i..]
    && X86Branches(was[lo..hi], 0, dir) == cur[lo..lo + i] + X86Branches(was[lo + i..hi], i, dir)
  }

  lemma X86Start(was: seq<byte>, lo: nat, hi: nat, dir: Direction)
    requires lo <= hi <= |was|
    ensures X86Progress(was, was, lo, hi, 0, dir)
  {
    assert was[lo + 0..hi] == was[lo..hi];
  }

  lemma X86StepOpcode(cur: seq<byte>, was: seq<byte>, lo: nat, hi: nat, i: nat, dir: Direction)
    requires X86Progress(cur, was, lo, hi, i, dir) && lo + i + 5 <= hi && IsCallOrJump(cur[lo + i])
    ensures var at := lo + i + 1;
            var v := Rebase(Word(cur[at..at + 4]), i + 5, dir);
            X86Progress(Splice(cur, at, at + 4, ToLE(4, v)), was, lo, hi, i + 5, dir)
  {
    hide Rebase, Word, ToLE;
    var at := lo + i + 1;
    var v := Rebase(Word(cur[at..at + 4]), i + 5, dir);
    var next := Splice(cur, at, at + 4, ToLE(4, v));
    var tail := cur[lo + i..];
    var rest := was[lo + i..hi];
    assert tail == was[lo + i..];
    assert tail[1..5] == cur[at..at + 4];
    assert rest == tail[..hi - lo - i];
    assert rest[0] == tail[0] == cur[lo + i] && rest[1..5] == tail[1..5];
    assert rest[5..] == was[lo + i + 5..hi] && tail[5..] == was[lo + i + 5..] == cur[at + 4..];
    assert next[lo..lo + i + 5] == cur[lo..lo + i] + ([rest[0]] + ToLE(4, v));
    assert next[lo + i + 5..] == cur[at + 4..] && next[..lo] == cur[..lo];
  }

  lemma X86StepOther(cur: seq<byte>, was: seq<byte>, lo: nat, hi: nat, i: nat, dir: Direction)
    requires X86Progress(cur, was, lo, hi, i, dir) && lo + i + 5 <= hi && !IsCallOrJump(cur[lo + i])
    ensures X86Progress(cur, was, lo, hi, i + 1, dir)
  {
    hide Rebase, Word, ToLE;
    var tail := was[lo + i..];
    var rest := was[lo + i..hi];
    assert rest[0] == tail[0] == cur[lo + i] && rest[1..] == was[lo + i + 1..hi];
    assert cur[lo..lo + i + 1] == cur[lo..lo + i] + [rest[0]];
    assert cur[lo + i + 1..] == tail[1..] == was[lo + i + 1..];
  }

  lemma X86Done(cur: seq<byte>, was: seq<byte>, lo: nat, hi: nat, i: nat, dir: Direction)
    requires X86Progress(cur, was, lo, hi, i, dir) && hi < lo + i + 5
    ensures cur == Splice(was, lo, hi, X86Branches(was[lo..hi], 0, dir))
  {
    hide Rebase, Word, ToLE, Splice;
    WindowDone(cur, was, lo, hi, i, X86Branches(was[lo..hi], 0, dir));
  }

  /** `x86_normalize` and `x86_denormalize` differ only in adding or subtracting the offset. */
  method X86Rebase(a: array<byte>, lo: nat, hi: nat, dir: Direction)
    requires lo <= hi <= a.Length
    modifies a
    ensures a[..] == Splice(old(a[..]), lo, hi, X86Branches(old(a[..])[lo..hi], 0, dir))
  {
    hide Rebase, Word, ToLE, X86Branches, X86Progress, Splice;
    ghost var was := a[..];
    var size := hi - lo;
    var i := 0;
    X86Start(was, lo, hi, dir);
    while i + 5 <= size
      invariant i <= size && X86Progress(a[..], was, lo, hi, i, dir)
    {
      if a[lo + i] == 0xE8 || a[lo + i] == 0xE9 {
        X86StepOpcode(a[..], was, lo, hi, i, dir);
        StoreAt(a, lo + i + 1, Rebase(Word(a[..][lo + i + 1..lo + i + 5]), i + 5, dir));
        i := i + 4;
      } else {
        X86StepOther(a[..], was, lo, hi, i, dir);
      }
      i := i + 1;
    }
    X86Done(a[..], was, lo, hi, i, dir);
  }
}

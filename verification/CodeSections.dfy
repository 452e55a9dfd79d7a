/** The code sections of a file as ranges to transform, and the loop that transforms them in place. */
module CodeSections {
  import opened Bytes
  import opened Normalize
  import opened Elf
  import opened Transforms

  function SectionTransform(arch: Arch, planed: bool): Transform {
    match arch
    case Arm64 => if planed then ArmPlaned else ArmBranch
    case X86 => X86Branch
  }

  function RangeOf(s: Section, xf: Transform): seq<Range> {
    if s.isCode then [Range(s.offset, s.size, xf)] else []
  }

  /** The code sections, in list order, as ranges to transform. */
  function CodeRanges(secs: seq<Section>, xf: Transform): (rs: seq<Range>) {
    if secs == [] then [] else RangeOf(secs[0], xf) + CodeRanges(secs[1..], xf)
  }

  lemma {:induction false} CodeRangesFrom(secs: seq<Section>, xf: Transform)
    ensures forall r :: r in CodeRanges(secs, xf) ==>
              exists s :: s in secs && s.isCode && r.off == s.offset && r.End() == s.End()
  {
    if secs != [] {
      CodeRangesFrom(secs[1..], xf);
    }
  }

  predicate SectionsFit(secs: seq<Section>, len: nat) {
    forall s :: s in secs ==> s.End() <= len
  }

  lemma CodeRangesInBounds(secs: seq<Section>, xf: Transform, len: nat)
    requires SectionsFit(secs, len)
    ensures InBounds(CodeRanges(secs, xf), len)
  {
    CodeRangesFrom(secs, xf);
  }

  lemma {:induction false} CodeRangesAppend(secs: seq<Section>, s: Section, xf: Transform)
    ensures CodeRanges(secs + [s], xf) == CodeRanges(secs, xf) + RangeOf(s, xf)
  {
    if secs == [] {
      assert [] + [s] == [s] && [s][1..] == [];
    } else {
      assert (secs + [s])[1..] == secs[1..] + [s];
      CodeRangesAppend(secs[1..], s, xf);
    }
  }

  /** Sections of the list do not overlap. */
  predicate SectionsApart(secs: seq<Section>) {
    forall i, j :: 0 <= i < j < |secs| ==> secs[i].End() <= secs[j].offset || secs[j].End() <= secs[i].offset
  }

  lemma ConsDisjoint(r: Range, rest: seq<Range>)
    requires Disjoint(rest) && forall q :: q in rest ==> Apart(r, q)
    ensures Disjoint([r] + rest)
  {
    var rs := [r] + rest;
    forall i, j | 0 <= i < j < |rs| ensures Apart(rs[i], rs[j]) {
      assert rs[j] == rest[j - 1] && rest[j - 1] in rest;
      if i > 0 {
        assert rs[i] == rest[i - 1];
      }
    }
  }

  lemma FirstApart(secs: seq<Section>, xf: Transform, q: Range)
    requires secs != [] && SectionsApart(secs) && q in CodeRanges(secs[1..], xf)
    ensures Apart(Range(secs[0].offset, secs[0].size, xf), q)
  {
    CodeRangesFrom(secs[1..], xf);
    var s :| s in secs[1..] && s.isCode && q.off == s.offset && q.End() == s.End();
    var k :| 0 <= k < |secs[1..]| && secs[1..][k] == s;
    assert secs[k + 1] == s;
  }

  lemma {:induction false} CodeRangesDisjoint(secs: seq<Section>, xf: Transform)
    requires SectionsApart(secs)
    ensures Disjoint(CodeRanges(secs, xf))
  {
    if secs != [] {
      var rest := CodeRanges(secs[1..], xf);
      CodeRangesDisjoint(secs[1..], xf);
      if secs[0].isCode {
        forall q | q in rest ensures Apart(Range(secs[0].offset, secs[0].size, xf), q) {
          FirstApart(secs, xf, q);
        }
        ConsDisjoint(Range(secs[0].offset, secs[0].size, xf), rest);
      } else {
        assert [] + rest == rest;
      }
    }
  }

  /** Every code section transformed, in list order. */
  function ApplySections(s: seq<byte>, secs: seq<Section>, xf: Transform, dir: Direction): (r: seq<byte>)
    requires SectionsFit(secs, |s|)
    ensures |r| == |s|
  {
    CodeRangesInBounds(secs, xf, |s|);
    ApplyAll(s, CodeRanges(secs, xf), dir)
  }

  lemma ApplySectionsInverse(s: seq<byte>, secs: seq<Section>, xf: Transform, dir: Direction)
    requires SectionsFit(secs, |s|) && SectionsApart(secs)
    ensures ApplySections(ApplySections(s, secs, xf, dir), secs, xf, dir.Reverse()) == s
  {
    CodeRangesInBounds(secs, xf, |s|);
    CodeRangesDisjoint(secs, xf);
    ApplyAllInverse(s, CodeRanges(secs, xf), dir);
  }

  /** Transforming the code sections in list order or in reverse gives the same bytes. */
  predicate SectionsOrderFree(s: seq<byte>, secs: seq<Section>, xf: Transform)
    requires SectionsFit(secs, |s|)
  {
    CodeRangesInBounds(secs, xf, |s|);
    OrderFree(s, CodeRanges(secs, xf), Encode)
  }

  /** The undo in list order restores the file exactly when the order of the sections did not matter. */
  lemma SectionsUndoExact(s: seq<byte>, secs: seq<Section>, xf: Transform)
    requires SectionsFit(secs, |s|)
    ensures ApplySections(ApplySections(s, secs, xf, Encode), secs, xf, Decode) == s <==> SectionsOrderFree(s, secs, xf)
  {
    CodeRangesInBounds(secs, xf, |s|);
    InOrderUndoExact(s, CodeRanges(secs, xf), Encode);
  }

  lemma ApartIsOrderFree(s: seq<byte>, secs: seq<Section>, xf: Transform)
    requires SectionsFit(secs, |s|) && SectionsApart(secs)
    ensures SectionsOrderFree(s, secs, xf)
  {
    CodeRangesInBounds(secs, xf, |s|);
    CodeRangesDisjoint(secs, xf);
    DisjointIsOrderFree(s, CodeRanges(secs, xf), Encode);
  }

  lemma ApplySectionsStep(s: seq<byte>, secs: seq<Section>, i: nat, xf: Transform, dir: Direction)
    requires i < |secs| && SectionsFit(secs, |s|)
    ensures SectionsFit(secs[..i], |s|) && SectionsFit(secs[..i + 1], |s|) && secs[i].End() <= |s|
    ensures var cur := ApplySections(s, secs[..i], xf, dir);
            ApplySections(s, secs[..i + 1], xf, dir)
            == if secs[i].isCode then ApplyOne(cur, Range(secs[i].offset, secs[i].size, xf), dir) else cur
  {
    hide ApplyOne;
    assert secs[..i] + [secs[i]] == secs[..i + 1] && secs[i] in secs;
    var rs := CodeRanges(secs[..i], xf);
    CodeRangesAppend(secs[..i], secs[i], xf);
    CodeRangesInBounds(secs[..i], xf, |s|);
    CodeRangesInBounds(secs[..i + 1], xf, |s|);
    if secs[i].isCode {
      var r := Range(secs[i].offset, secs[i].size, xf);
      ApplyAllAppend(s, rs, [r], dir);
      ApplyAllOne(ApplyAll(s, rs, dir), r, dir);
    } else {
      assert rs + [] == rs;
    }
  }

  /** The loops over sections: the encoder fills its variants with it, the decoder undoes them. */
  method TransformSections(buf: array<byte>, secs: seq<Section>, xf: Transform, dir: Direction)
    requires SectionsFit(secs, buf.Length)
    modifies buf
    ensures buf[..] == ApplySections(old(buf[..]), secs, xf, dir)
  {
    hide ApplySections, ApplyOne;
    ghost var was := buf[..];
    NoSections(was, xf, dir);
    for i := 0 to |secs|
      invariant SectionsFit(secs[..i], |was|) && buf[..] == ApplySections(was, secs[..i], xf, dir)
    {
      ApplySectionsStep(was, secs, i, xf, dir);
      var s := secs[i];
      if s.isCode && s.offset + s.size <= buf.Length {
        ApplySection(buf, Range(s.offset, s.size, xf), dir);
      }
    }
    assert secs[..|secs|] == secs;
  }

  lemma NoSections(s: seq<byte>, xf: Transform, dir: Direction)
    ensures forall secs: seq<Section> :: secs == [] ==> ApplySections(s, secs, xf, dir) == s
  {
  }
}

/** Getting files out of the solid blob: denormalize_file, solid_slice and the in-place phase of unpack in src/pack.rs. */
module Unpacking {
  import opened Bytes
  import opened Normalize
  import opened Transforms
  import opened ContainerFormat

  function RangeTransform(arch: byte): Option<Transform> {
    if arch == ARCH_ARM64 then Some(ArmBranch) else if arch == ARCH_X86 then Some(X86Branch) else None
  }

  function ToRange(r: CodeRange): Range {
    Range(r.off, r.size, if r.arch == ARCH_ARM64 then ArmBranch else X86Branch)
  }

  function ToRanges(rs: seq<CodeRange>): (qs: seq<Range>)
    ensures |qs| == |rs| && forall i :: 0 <= i < |rs| ==> qs[i] == ToRange(rs[i])
  {
    if rs == [] then [] else [ToRange(rs[0])] + ToRanges(rs[1..])
  }

  /** Ranges in stored order; one that leaves the file or names no architecture is an error. */
  function DenormalizeFile(buf: seq<byte>, rs: seq<CodeRange>): (r: Result<seq<byte>>)
    ensures r.Ok? ==> |r.value| == |buf|
    decreases rs
  {
    if rs == [] then Ok(buf)
    else if rs[0].off + rs[0].size > |buf| then Err(BadArchive)
    else if RangeTransform(rs[0].arch).None? then Err(BadArchive)
    else DenormalizeFile(ApplyOne(buf, ToRange(rs[0]), Decode), rs[1..])
  }

  predicate Decodable(rs: seq<CodeRange>, len: nat) {
    forall r :: r in rs ==> r.off + r.size <= len && RangeTransform(r.arch).Some?
  }

  /** It succeeds exactly when every range is usable, and then undoes them all in order. */
  lemma {:induction false} DenormalizeIsApplyAll(buf: seq<byte>, rs: seq<CodeRange>)
    ensures DenormalizeFile(buf, rs).Ok? <==> Decodable(rs, |buf|)
    ensures Decodable(rs, |buf|) ==>
              InBounds(ToRanges(rs), |buf|) && DenormalizeFile(buf, rs) == Ok(ApplyAll(buf, ToRanges(rs), Decode))
    decreases rs
  {
    if rs != [] {
      hide ApplyOne;
      assert rs == [rs[0]] + rs[1..];
      assert ToRanges(rs)[1..] == ToRanges(rs[1..]);
      if rs[0].off + rs[0].size <= |buf| && RangeTransform(rs[0].arch).Some? {
        DenormalizeIsApplyAll(ApplyOne(buf, ToRange(rs[0]), Decode), rs[1..]);
      }
    }
  }

  /** One file inside the solid blob. */
  datatype Stored = Stored(off: nat, size: nat, ranges: seq<CodeRange>) {
    function End(): nat { off + size }
  }

  predicate StoredApart(f: Stored, g: Stored) {
    f.End() <= g.off || g.End() <= f.off
  }

  predicate AllApart(fs: seq<Stored>) {
    forall i, j :: 0 <= i < j < |fs| ==> StoredApart(fs[i], fs[j])
  }

  function SolidSlice(solid: seq<byte>, off: nat, size: nat): Result<seq<byte>> {
    if off + size > |solid| then Err(BadArchive) else Ok(solid[off..off + size])
  }

  /** Copy, then denormalize: `extract`, and every inner file of a rebuilt zip. */
  function ExtractFile(solid: seq<byte>, f: Stored): Result<seq<byte>> {
    var slice :- SolidSlice(solid, f.off, f.size);
    DenormalizeFile(slice, f.ranges)
  }

  /** Extraction succeeds exactly for a file inside the solid with usable ranges, and keeps its size. */
  lemma ExtractExact(solid: seq<byte>, f: Stored)
    ensures ExtractFile(solid, f).Ok? <==> f.End() <= |solid| && Decodable(f.ranges, f.size)
    ensures ExtractFile(solid, f).Ok? ==> |ExtractFile(solid, f).value| == f.size
  {
    if f.End() <= |solid| {
      DenormalizeIsApplyAll(solid[f.off..f.End()], f.ranges);
    }
  }

  function ExtractAll(solid: seq<byte>, fs: seq<Stored>): Result<seq<seq<byte>>> {
    if fs == [] then Ok([])
    else
      var plain :- ExtractFile(solid, fs[0]);
      Prepend([plain], ExtractAll(solid, fs[1..]))
  }

  /** The files that came out, and the blob they left behind. */
  type Unpacked = (seq<seq<byte>>, seq<byte>)

  /** `unpack`: each file is denormalized where it lies in the shared blob, and written from there. */
  function UnpackInPlace(solid: seq<byte>, fs: seq<Stored>): Result<Unpacked>
    decreases fs
  {
    if fs == [] then Ok(([], solid))
    else
      var slice :- SolidSlice(solid, fs[0].off, fs[0].size);
      var plain :- DenormalizeFile(slice, fs[0].ranges);
      var rest :- UnpackInPlace(Splice(solid, fs[0].off, fs[0].End(), plain), fs[1..]);
      Ok(([plain] + rest.0, rest.1))
  }

  lemma ExtractUnaffected(solid: seq<byte>, f: Stored, g: Stored, plain: seq<byte>)
    requires f.End() <= |solid| && |plain| == f.size && StoredApart(f, g)
    ensures ExtractFile(Splice(solid, f.off, f.End(), plain), g) == ExtractFile(solid, g)
  {
    hide DenormalizeFile, Splice;
    assert |Splice(solid, f.off, f.End(), plain)| == |solid| by { SpliceLength(solid, f.off, f.End(), plain); }
    if g.End() <= |solid| {
      SpliceElsewhere(solid, f.off, f.End(), plain, g.off, g.End());
    }
  }

  lemma {:induction false} ExtractAllUnaffected(solid: seq<byte>, f: Stored, gs: seq<Stored>, plain: seq<byte>)
    requires f.End() <= |solid| && |plain| == f.size && forall g :: g in gs ==> StoredApart(f, g)
    ensures ExtractAll(Splice(solid, f.off, f.End(), plain), gs) == ExtractAll(solid, gs)
  {
    hide ExtractFile, Splice;
    if gs != [] {
      ExtractUnaffected(solid, f, gs[0], plain);
      ExtractAllUnaffected(solid, f, gs[1..], plain);
    }
  }

  /** For files that do not overlap, in whatever order they are listed, unpacking in place yields what copying
      first would, file by file and error for error. */
  lemma {:induction false} InPlaceIsExtract(solid: seq<byte>, fs: seq<Stored>)
    requires AllApart(fs)
    ensures match UnpackInPlace(solid, fs)
            case Ok(u) => ExtractAll(solid, fs) == Ok(u.0)
            case Err(e) => ExtractAll(solid, fs) == Err(e)
    decreases fs
  {
    hide DenormalizeFile, Splice;
    if fs != [] && ExtractFile(solid, fs[0]).Ok? {
      var f := fs[0];
      var plain := ExtractFile(solid, f).value;
      forall g | g in fs[1..] ensures StoredApart(f, g) {
        var j :| 0 <= j < |fs[1..]| && fs[1..][j] == g;
        assert fs[j + 1] == g;
      }
      assert AllApart(fs[1..]) by {
        forall i, j | 0 <= i < j < |fs[1..]| ensures StoredApart(fs[1..][i], fs[1..][j]) {
          assert StoredApart(fs[i + 1], fs[j + 1]);
        }
      }
      assert |plain| == f.size by { PlainSize(solid, f); }
      ExtractAllUnaffected(solid, f, fs[1..], plain);
      assert |Splice(solid, f.off, f.End(), plain)| == |solid| by { SpliceLength(solid, f.off, f.End(), plain); }
      InPlaceIsExtract(Splice(solid, f.off, f.End(), plain), fs[1..]);
    }
  }

  lemma PlainSize(solid: seq<byte>, f: Stored)
    requires ExtractFile(solid, f).Ok?
    ensures |ExtractFile(solid, f).value| == f.size && f.End() <= |solid|
  {
  }

  lemma SpliceLength(s: seq<byte>, lo: nat, hi: nat, t: seq<byte>)
    requires lo <= hi <= |s| && |t| == hi - lo
    ensures |Splice(s, lo, hi, t)| == |s|
  {
  }

  /** Unpacking in place leaves every other file of the blob as it was: zips are rebuilt from it afterwards. */
  lemma {:induction false} InPlaceFrame(solid: seq<byte>, fs: seq<Stored>, g: Stored)
    requires UnpackInPlace(solid, fs).Ok? && forall f :: f in fs ==> StoredApart(f, g)
    ensures ExtractFile(UnpackInPlace(solid, fs).value.1, g) == ExtractFile(solid, g)
    decreases fs
  {
    hide DenormalizeFile, Splice;
    if fs != [] {
      var f := fs[0];
      var plain := ExtractFile(solid, f).value;
      PlainSize(solid, f);
      ExtractUnaffected(solid, f, g, plain);
      InPlaceFrame(Splice(solid, f.off, f.End(), plain), fs[1..], g);
    }
  }

  // ---- The loops ----

  lemma WindowRange(s: seq<byte>, lo: nat, hi: nat, x: seq<byte>, r: Range, dir: Direction)
    requires lo <= hi <= |s| && |x| == hi - lo && r.End() <= |x|
    ensures |Splice(s, lo, hi, x)| == |s|
    ensures ApplyOne(Splice(s, lo, hi, x), Range(lo + r.off, r.size, r.xf), dir) == Splice(s, lo, hi, ApplyOne(x, r, dir))
  {
    hide Apply, Splice;
    SpliceLength(s, lo, hi, x);
    NestedSplice(s, lo, hi, x, r.off, r.End(), Apply(r.xf, x[r.off..r.End()], dir));
  }

  /** On the window from `lo` to `hi`: a failure abandons the buffer. */
  method DenormalizeWindow(a: array<byte>, lo: nat, hi: nat, rs: seq<CodeRange>) returns (r: Result<()>)
    requires lo <= hi <= a.Length
    modifies a
    ensures match DenormalizeFile(old(a[..])[lo..hi], rs)
            case Ok(plain) => r == Ok(()) && a[..] == Splice(old(a[..]), lo, hi, plain)
            case Err(e) => r == Err(e)
  {
    hide ApplyOne, Splice;
    ghost var was := a[..];
    ghost var x := was[lo..hi];
    WholeWindow(was, lo, hi);
    assert rs[0..] == rs;
    for i := 0 to |rs|
      invariant |x| == hi - lo && a[..] == Splice(was, lo, hi, x)
      invariant DenormalizeFile(was[lo..hi], rs) == DenormalizeFile(x, rs[i..])
    {
      assert rs[i..][1..] == rs[i + 1..];
      var off, size := rs[i].off, rs[i].size;
      if off + size > hi - lo {
        return Err(BadArchive);
      }
      var xf := RangeTransform(rs[i].arch);
      if xf.None? {
        return Err(BadArchive);
      }
      WindowRange(was, lo, hi, x, ToRange(rs[i]), Decode);
      ApplySection(a, Range(lo + off, size, xf.value), Decode);
      x := ApplyOne(x, ToRange(rs[i]), Decode);
    }
    return Ok(());
  }

  /** Phase 2 of `unpack`, over the files in entry order. */
  method UnpackFiles(solid: array<byte>, fs: seq<Stored>) returns (r: Result<seq<seq<byte>>>)
    modifies solid
    ensures match UnpackInPlace(old(solid[..]), fs)
            case Ok(u) => r == Ok(u.0) && solid[..] == u.1
            case Err(e) => r == Err(e)
  {
    hide DenormalizeFile, Splice;
    ghost var all := UnpackInPlace(solid[..], fs);
    var written: seq<seq<byte>> := [];
    assert fs[0..] == fs;
    ContinueNothing(all);
    for i := 0 to |fs|
      invariant all == Continue(written, UnpackInPlace(solid[..], fs[i..]))
    {
      var f := fs[i];
      assert fs[i..][0] == f && fs[i..][1..] == fs[i + 1..];
      var end := f.off + f.size;
      if end > solid.Length {
        return Err(BadArchive);
      }
      ghost var was := solid[..];
      var _ :- DenormalizeWindow(solid, f.off, end, f.ranges);
      ghost var plain := DenormalizeFile(was[f.off..end], f.ranges).value;
      assert solid[..][f.off..end] == plain by { WindowBack(was, f.off, end, plain); }
      ContinueTwice(written, plain, UnpackInPlace(solid[..], fs[i + 1..]));
      written := written + [solid[..][f.off..end]];
    }
    assert written + [] == written;
    return Ok(written);
  }

  lemma WindowBack(s: seq<byte>, lo: nat, hi: nat, t: seq<byte>)
    requires lo <= hi <= |s| && |t| == hi - lo
    ensures Splice(s, lo, hi, t)[lo..hi] == t && |Splice(s, lo, hi, t)| == |s|
  {
  }

  method Extract(solid: seq<byte>, f: Stored) returns (r: Result<seq<byte>>)
    ensures r == ExtractFile(solid, f)
  {
    hide DenormalizeFile, Splice;
    var end := f.off + f.size;
    if end > |solid| {
      return Err(BadArchive);
    }
    var bytes := new byte[f.size](i requires 0 <= i < f.size => solid[f.off + i]);
    assert bytes[..] == solid[f.off..end];
    assert bytes[..][0..f.size] == bytes[..];
    var _ :- DenormalizeWindow(bytes, 0, f.size, f.ranges);
    ghost var plain := DenormalizeFile(solid[f.off..end], f.ranges).value;
    WindowBack(solid[f.off..end], 0, f.size, plain);
    assert bytes[..][0..f.size] == bytes[..];
    return Ok(bytes[..]);
  }
}

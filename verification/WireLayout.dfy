/** Both formats as they lie on the wire, field by field: src/format.rs and src/pack.rs. */
module WireLayout {
  import opened Bytes
  import opened ContainerFormat
  import Format

  // ---- Numbers ----

  /** `x` is the number `v` in `n` bytes. */
  predicate IsNum(x: seq<byte>, n: nat, v: nat) {
    |x| == n && FromLE(x) == v
  }

  lemma NoResidue(v: nat, width: nat)
    requires v < width
    ensures v % width == v
  {
  }

  lemma NumLayout(n: nat, v: nat)
    requires (n == 2 && v <= U16_MAX) || (n == 4 && v <= U32_MAX) || (n == 8 && v <= U64_MAX)
    ensures IsNum(ToLE(n, v), n, v)
  {
    assert v < Pow256(n) by {
      assert Pow256(2) == 0x1_0000 && Pow256(4) == 0x1_0000_0000 && Pow256(8) == 0x1_0000_0000_0000_0000;
    }
    hide Pow256, ToLE, FromLE;
    FromLEToLE(n, v);
    NoResidue(v, Pow256(n));
  }

  lemma TwoParts<T>(a: seq<T>, b: seq<T>)
    ensures (a + b)[..|a|] == a && (a + b)[|a|..] == b
  {
  }

  lemma SecondPart<T>(a: seq<T>, b: seq<T>, lo: nat, hi: nat)
    requires lo <= hi <= |b|
    ensures (a + b)[|a| + lo..|a| + hi] == b[lo..hi]
  {
  }

  lemma FourParts<T>(a: seq<T>, b: seq<T>, c: seq<T>, d: seq<T>)
    ensures var s, i, j := a + b + c + d, |a| + |b|, |a| + |b| + |c|;
            s[..|a|] == a && s[|a|..i] == b && s[i..j] == c && s[j..] == d
  {
  }

  // ---- UCOMP01 ----

  /** A chunk record: type, original size, payload size. */
  predicate IsRecord(x: seq<byte>, m: Format.ChunkMeta) {
    |x| == 9 && x[0] == m.preproc && IsNum(x[1..5], 4, m.origSize) && IsNum(x[5..9], 4, m.compSize)
  }

  lemma RecordLayout(m: Format.ChunkMeta)
    ensures IsRecord(Format.Record(m), m)
  {
    hide ToLE, FromLE;
    NumLayout(4, m.origSize);
    NumLayout(4, m.compSize);
    var r := Format.Record(m);
    assert r[1..5] == ToLE(4, m.origSize) && r[5..9] == ToLE(4, m.compSize);
  }

  /** A header: "UCOMP01" and a zero, the size, the count, and one record of nine bytes per chunk. */
  predicate IsHeader(x: seq<byte>, origSize: nat, metas: seq<Format.ChunkMeta>) {
    && |x| == 20 + 9 * |metas|
    && x[0..8] == [0x55, 0x43, 0x4F, 0x4D, 0x50, 0x30, 0x31, 0x00]
    && IsNum(x[8..16], 8, origSize) && IsNum(x[16..20], 4, |metas|)
    && forall i :: 0 <= i < |metas| ==> IsRecord(x[20 + 9 * i..29 + 9 * i], metas[i])
  }

  lemma HeaderLayout(origSize: nat, metas: seq<Format.ChunkMeta>)
    requires origSize <= U64_MAX && |metas| <= U32_MAX
    ensures IsHeader(Format.EncodeHeader(origSize, metas), origSize, metas)
  {
    hide ToLE, FromLE, Format.Record, Format.Table, IsRecord;
    var x, t := Format.EncodeHeader(origSize, metas), Format.Table(metas);
    NumLayout(8, origSize);
    NumLayout(4, |metas|);
    assert x[0..8] == Format.MAGIC && x[8..16] == ToLE(8, origSize) && x[16..20] == ToLE(4, |metas|);
    forall i | 0 <= i < |metas| ensures IsRecord(x[20 + 9 * i..29 + 9 * i], metas[i]) {
      Format.RecordInTable(metas, i);
      RecordLayout(metas[i]);
      Format.InMiddle(Format.MAGIC + ToLE(8, origSize) + ToLE(4, |metas|), t, [], 9 * i, 9 * i + 9);
      assert x == Format.MAGIC + ToLE(8, origSize) + ToLE(4, |metas|) + t + [];
    }
  }

  // ---- UCOMP02: strings and ranges ----

  /** Length in two bytes, then the string. */
  predicate IsStr(x: seq<byte>, t: Text) {
    |x| == 2 + |t| && IsNum(x[..2], 2, |t|) && x[2..] == t
  }

  lemma StrLayout(t: Text)
    requires StrBytes(t).Ok?
    ensures IsStr(StrBytes(t).value, t)
  {
    hide ToLE, FromLE;
    NumLayout(2, |t|);
    TwoParts(ToLE(2, |t|), t);
  }

  predicate IsRange(x: seq<byte>, r: CodeRange) {
    |x| == 17 && IsNum(x[..8], 8, r.off) && IsNum(x[8..16], 8, r.size) && x[16] == r.arch
  }

  lemma RangeLayout(r: CodeRange)
    ensures |RangeBytes(r)| == 17 && IsRange(RangeBytes(r), r)
  {
    hide ToLE, FromLE;
    NumLayout(8, r.off);
    NumLayout(8, r.size);
    var x := RangeBytes(r);
    assert x[..8] == ToLE(8, r.off) && x[8..16] == ToLE(8, r.size);
  }

  lemma {:induction false} RangesLayout(rs: seq<CodeRange>, i: nat)
    ensures |RangeListBytes(rs)| == 17 * |rs|
    ensures i < |rs| ==> IsRange(RangeListBytes(rs)[17 * i..17 * i + 17], rs[i])
  {
    hide RangeBytes, IsRange;
    if rs != [] {
      var first, rest := RangeBytes(rs[0]), RangeListBytes(rs[1..]);
      RangesLayout(rs[1..], if i > 0 then i - 1 else 0);
      RangeLayout(rs[0]);
      TwoParts(first, rest);
      if 0 < i < |rs| {
        var k: nat := 17 * (i - 1);
        SecondPart(first, rest, k, k + 17);
        assert 17 + k == 17 * i && RangeListBytes(rs) == first + rest;
        assert RangeListBytes(rs)[17 * i..17 * i + 17] == rest[k..k + 17];
      }
    }
  }

  /** Range count, ranges of 17 bytes, offset, size. */
  predicate IsPlacement(x: seq<byte>, rs: seq<CodeRange>, off: nat, size: nat) {
    var n := 17 * |rs|;
    && |x| == n + 18 && IsNum(x[..2], 2, |rs|)
    && (forall i :: 0 <= i < |rs| ==> IsRange(x[2 + 17 * i..19 + 17 * i], rs[i]))
    && IsNum(x[n + 2..n + 10], 8, off) && IsNum(x[n + 10..], 8, size)
  }

  lemma PlacementLayout(rs: seq<CodeRange>, off: u64, size: u64)
    requires PlacementBytes(rs, off, size).Ok?
    ensures IsPlacement(PlacementBytes(rs, off, size).value, rs, off, size)
  {
    hide ToLE, FromLE, RangeListBytes, IsRange;
    var x, list, n := PlacementBytes(rs, off, size).value, RangeListBytes(rs), 17 * |rs|;
    RangesLayout(rs, 0);
    NumLayout(2, |rs|);
    NumLayout(8, off);
    NumLayout(8, size);
    assert x[..2] == ToLE(2, |rs|) && x[n + 2..n + 10] == ToLE(8, off) && x[n + 10..] == ToLE(8, size);
    forall i | 0 <= i < |rs| ensures IsRange(x[2 + 17 * i..19 + 17 * i], rs[i]) {
      RangesLayout(rs, i);
      Format.InMiddle(ToLE(2, |rs|), list, ToLE(8, off) + ToLE(8, size), 17 * i, 17 * i + 17);
      assert x == ToLE(2, |rs|) + list + (ToLE(8, off) + ToLE(8, size));
    }
  }

  // ---- UCOMP02: inner entries ----

  predicate IsTime(x: seq<byte>, t: ZipTime) {
    && |x| == 7 && IsNum(x[..2], 2, t.year)
    && x[2] == t.month && x[3] == t.day && x[4] == t.hour && x[5] == t.minute && x[6] == t.second
  }

  lemma TimeLayout(t: ZipTime)
    ensures IsTime(ZTimeBytes(t), t)
  {
    hide ToLE, FromLE;
    NumLayout(2, t.year);
    assert ZTimeBytes(t)[..2] == ToLE(2, t.year);
  }

  /** After the path: method, mode, time, crc and placement of a file; target, mode and time of a link; mode and time of the rest. */
  predicate IsInnerBody(x: seq<byte>, z: ZipInner) {
    if z.kind == 0 then
      |x| >= 16 && x[0] == z.method_ && IsNum(x[1..5], 4, z.unixMode) && IsTime(x[5..12], z.mtime) && IsNum(x[12..16], 4, z.crc)
      && IsPlacement(x[16..], z.codeRanges, z.solidOff, z.solidSize)
    else
      var n := if z.kind == 2 then 2 + |OrEmpty(z.linkTarget)| else 0;
      |x| == n + 11 && (z.kind == 2 ==> IsStr(x[..n], OrEmpty(z.linkTarget)))
      && IsNum(x[n..n + 4], 4, z.unixMode) && IsTime(x[n + 4..], z.mtime)
  }

  lemma InnerBodyLayout(z: ZipInner)
    requires InnerBody(z).Ok?
    ensures IsInnerBody(InnerBody(z).value, z)
  {
    hide ToLE, FromLE, ZTimeBytes, IsTime, PlacementBytes, IsPlacement, StrBytes, IsStr;
    var x := InnerBody(z).value;
    NumLayout(4, z.unixMode);
    TimeLayout(z.mtime);
    assert |ZTimeBytes(z.mtime)| == 7 by { TimeSize(z.mtime); }
    if z.kind == ZIP_FILE {
      NumLayout(4, z.crc);
      PlacementLayout(z.codeRanges, z.solidOff, z.solidSize);
      assert x[1..5] == ToLE(4, z.unixMode) && x[5..12] == ZTimeBytes(z.mtime) && x[12..16] == ToLE(4, z.crc);
      assert x[16..] == PlacementBytes(z.codeRanges, z.solidOff, z.solidSize).value;
    } else {
      var target := if z.kind == ZIP_LINK then StrBytes(OrEmpty(z.linkTarget)).value else [];
      var n := |target|;
      if z.kind == ZIP_LINK {
        StrLayout(OrEmpty(z.linkTarget));
        assert n == 2 + |OrEmpty(z.linkTarget)| by { StrSize(OrEmpty(z.linkTarget)); }
      }
      assert x == target + ToLE(4, z.unixMode) + ZTimeBytes(z.mtime);
      assert x[..n] == target && x[n..n + 4] == ToLE(4, z.unixMode) && x[n + 4..] == ZTimeBytes(z.mtime);
    }
  }

  lemma TimeSize(t: ZipTime)
    ensures |ZTimeBytes(t)| == 7
  {
  }

  lemma StrSize(t: Text)
    requires StrBytes(t).Ok?
    ensures |StrBytes(t).value| == 2 + |t|
  {
  }

  /** Kind, path, and what the kind stores. */
  predicate IsInner(x: seq<byte>, z: ZipInner) {
    var n := 3 + |z.path|;
    |x| >= n && x[0] == z.kind && IsStr(x[1..n], z.path) && IsInnerBody(x[n..], z)
  }

  lemma InnerLayout(z: ZipInner)
    requires InnerBytes(z).Ok?
    ensures IsInner(InnerBytes(z).value, z)
  {
    hide StrBytes, IsStr, InnerBody, IsInnerBody;
    var x, path, body := InnerBytes(z).value, StrBytes(z.path).value, InnerBody(z).value;
    StrLayout(z.path);
    StrSize(z.path);
    InnerBodyLayout(z);
    assert x == [z.kind] + path + body;
    assert x[1..3 + |z.path|] == path && x[3 + |z.path|..] == body;
  }

  /** Inner entries one after the other. */
  ghost predicate IsInnerList(x: seq<byte>, zs: seq<ZipInner>)
    decreases zs
  {
    if zs == [] then x == []
    else exists n: nat :: n <= |x| && IsInner(x[..n], zs[0]) && IsInnerList(x[n..], zs[1..])
  }

  lemma {:induction false} InnerListLayout(zs: seq<ZipInner>)
    requires InnerListBytes(zs).Ok?
    ensures IsInnerList(InnerListBytes(zs).value, zs)
    decreases zs
  {
    hide InnerBytes, IsInner;
    if zs != [] {
      InnerLayout(zs[0]);
      InnerListLayout(zs[1..]);
      TwoParts(InnerBytes(zs[0]).value, InnerListBytes(zs[1..]).value);
    }
  }

  // ---- UCOMP02: entries ----

  /** Bits for mode, owner and context; the mode; user and group, all ones for none; the context. */
  predicate IsMeta(x: seq<byte>, m: FileMeta) {
    var owner := m.uid.Some? || m.gid.Some?;
    var a := if m.mode.Some? then 5 else 1;
    var b := if owner then a + 8 else a;
    && |x| >= b
    && x[0] as int == (if m.mode.Some? then 1 else 0) + (if owner then 2 else 0) + (if m.context.Some? then 4 else 0)
    && (m.mode.Some? ==> IsNum(x[1..5], 4, m.mode.value))
    && (owner ==> IsNum(x[a..a + 4], 4, if m.uid.Some? then m.uid.value else 0xFFFF_FFFF)
                  && IsNum(x[a + 4..b], 4, if m.gid.Some? then m.gid.value else 0xFFFF_FFFF))
    && (if m.context.Some? then IsStr(x[b..], m.context.value) else |x| == b)
  }

  lemma MetaLayout(m: FileMeta)
    requires MetaBytes(m).Ok?
    ensures IsMeta(MetaBytes(m).value, m)
  {
    hide ToLE, FromLE, StrBytes, IsStr;
    var x := MetaBytes(m).value;
    var mode := if m.mode.Some? then ToLE(4, m.mode.value) else [];
    var owner := if HasOwner(m) then ToLE(4, OrMax(m.uid)) + ToLE(4, OrMax(m.gid)) else [];
    var context := if m.context.Some? then StrBytes(m.context.value).value else [];
    assert x == [MetaFlags(m)] + mode + owner + context;
    var a, b := 1 + |mode|, 1 + |mode| + |owner|;
    assert x[1..a] == mode && x[a..b] == owner && x[b..] == context;
    if m.mode.Some? {
      NumLayout(4, m.mode.value);
    }
    if HasOwner(m) {
      NumLayout(4, OrMax(m.uid));
      NumLayout(4, OrMax(m.gid));
      assert x[a..a + 4] == x[a..b][..4] && x[a + 4..b] == x[a..b][4..];
      TwoParts(ToLE(4, OrMax(m.uid)), ToLE(4, OrMax(m.gid)));
    }
    if m.context.Some? {
      StrLayout(m.context.value);
    }
  }

  /** What the kind stores: a placement, a target, nothing, or a count and the inner entries. */
  ghost predicate IsEntryBody(x: seq<byte>, e: PackEntry) {
    match e.kind
    case File => IsPlacement(x, e.codeRanges, e.solidOff, e.solidSize)
    case Link => IsStr(x, OrEmpty(e.linkTarget))
    case Dir => x == []
    case Zip => |x| >= 2 && IsNum(x[..2], 2, |e.zipInners|) && IsInnerList(x[2..], e.zipInners)
  }

  lemma EntryBodyLayout(e: PackEntry)
    requires EntryBody(e).Ok?
    ensures IsEntryBody(EntryBody(e).value, e)
  {
    hide ToLE, FromLE, StrBytes, IsStr, PlacementBytes, IsPlacement, InnerListBytes, IsInnerList;
    match e.kind
    case File => PlacementLayout(e.codeRanges, e.solidOff, e.solidSize);
    case Link => StrLayout(OrEmpty(e.linkTarget));
    case Dir =>
    case Zip =>
      NumLayout(2, |e.zipInners|);
      InnerListLayout(e.zipInners);
      TwoParts(ToLE(2, |e.zipInners|), InnerListBytes(e.zipInners).value);
  }

  /** Path, a byte for file, directory, link or zip, metadata, body. */
  ghost predicate IsEntry(x: seq<byte>, e: PackEntry) {
    var n := 3 + |e.path|;
    && |x| >= n && IsStr(x[..n - 1], e.path)
    && x[n - 1] == (match e.kind case File => 0 case Dir => 1 case Link => 2 case Zip => 3)
    && exists k: nat :: n <= k <= |x| && IsMeta(x[n..k], e.meta) && IsEntryBody(x[k..], e)
  }

  lemma EntryLayout(e: PackEntry)
    requires EntryBytes(e).Ok?
    ensures IsEntry(EntryBytes(e).value, e)
  {
    hide StrBytes, IsStr, MetaBytes, IsMeta, EntryBody, IsEntryBody;
    var x, path, meta, body := EntryBytes(e).value, StrBytes(e.path).value, MetaBytes(e.meta).value, EntryBody(e).value;
    var n: nat, k: nat := 3 + |e.path|, 3 + |e.path| + |meta|;
    StrLayout(e.path);
    StrSize(e.path);
    MetaLayout(e.meta);
    EntryBodyLayout(e);
    assert x == path + [KindByte(e.kind)] + meta + body;
    assert x[..n - 1] == path && x[n..k] == meta && x[k..] == body;
  }

  ghost predicate IsEntryList(x: seq<byte>, es: seq<PackEntry>)
    decreases es
  {
    if es == [] then x == []
    else exists n: nat :: n <= |x| && IsEntry(x[..n], es[0]) && IsEntryList(x[n..], es[1..])
  }

  lemma {:induction false} EntryListLayout(es: seq<PackEntry>)
    requires EntryListBytes(es).Ok?
    ensures IsEntryList(EntryListBytes(es).value, es)
    decreases es
  {
    hide EntryBytes, IsEntry;
    if es != [] {
      EntryLayout(es[0]);
      EntryListLayout(es[1..]);
      TwoParts(EntryBytes(es[0]).value, EntryListBytes(es[1..]).value);
    }
  }

  /** "UCOMP02" and a zero, four zero bytes, the entry count, the entries, the size of the payload, the payload. */
  ghost predicate IsContainer(x: seq<byte>, es: seq<PackEntry>, solid: seq<byte>) {
    && |x| >= 24 + |solid|
    && x[0..8] == [0x55, 0x43, 0x4F, 0x4D, 0x50, 0x30, 0x32, 0x00] && x[8..12] == [0, 0, 0, 0] && IsNum(x[12..16], 4, |es|)
    && var n := |x| - |solid|;
       IsEntryList(x[16..n - 8], es) && IsNum(x[n - 8..n], 8, |solid|) && x[n..] == solid
  }

  lemma ContainerLayout(es: seq<PackEntry>, solid: seq<byte>)
    requires ContainerBytes(es, solid).Ok? && |solid| <= U64_MAX
    ensures IsContainer(ContainerBytes(es, solid).value, es, solid)
  {
    hide ToLE, FromLE, EntryListBytes, IsEntryList;
    var entries := EntryListBytes(es).value;
    FourZeros();
    NumLayout(4, |es|);
    NumLayout(8, |solid|);
    EntryListLayout(es);
    hide IsNum;
    ContainerParts(ToLE(4, 0), ToLE(4, |es|), entries, ToLE(8, |solid|), solid);
  }

  lemma ContainerParts(zeros: seq<byte>, count: seq<byte>, entries: seq<byte>, size: seq<byte>, solid: seq<byte>)
    requires |zeros| == |count| == 4 && |size| == 8
    ensures var x := MAGIC2 + zeros + count + entries + size + solid;
            var n := |x| - |solid|;
            && n >= 24 && x[0..8] == MAGIC2 && x[8..12] == zeros && x[12..16] == count
            && x[16..n - 8] == entries && x[n - 8..n] == size && x[n..] == solid
  {
    var front := MAGIC2 + zeros + count;
    FourParts(front, entries, size, solid);
    FrontOf(MAGIC2 + zeros + count + entries + size + solid, front);
    assert front[0..8] == MAGIC2 && front[8..12] == zeros && front[12..16] == count;
  }

  lemma FrontOf<T>(s: seq<T>, front: seq<T>)
    requires front <= s
    ensures forall lo, hi :: 0 <= lo <= hi <= |front| ==> s[lo..hi] == front[lo..hi]
  {
  }

  lemma FourZeros()
    ensures ToLE(4, 0) == [0, 0, 0, 0]
  {
    assert ToLE(1, 0) == [0] && ToLE(2, 0) == [0] + ToLE(1, 0) && ToLE(3, 0) == [0] + ToLE(2, 0);
  }
}

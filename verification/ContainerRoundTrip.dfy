/** What is written reads back in canonical form, and framing is exact. */
module ContainerRoundTrip {
  import opened Bytes
  import opened ContainerFormat

  // ---- Integers and strings ----

  lemma TakeFront(b: seq<byte>, rest: seq<byte>)
    ensures Take(b + rest, |b|) == Ok((b, rest))
  {
    assert (b + rest)[..|b|] == b && (b + rest)[|b|..] == rest;
  }

  lemma U8Back(v: byte, rest: seq<byte>)
    ensures ReadU8([v] + rest) == Ok((v, rest))
  {
    TakeFront([v], rest);
  }

  lemma U16Back(v: u16, rest: seq<byte>)
    ensures ReadU16(ToLE(2, v) + rest) == Ok((v, rest))
  {
    hide ToLE, FromLE;
    TakeFront(ToLE(2, v), rest);
    FromLEToLE(2, v);
    assert Pow256(2) == 0x1_0000;
  }

  lemma U32Back(v: u32, rest: seq<byte>)
    ensures ReadU32(ToLE(4, v) + rest) == Ok((v, rest))
  {
    hide ToLE, FromLE;
    TakeFront(ToLE(4, v), rest);
    FromLEToLE(4, v);
    assert Pow256(4) == 0x1_0000_0000;
  }

  lemma U64Back(v: u64, rest: seq<byte>)
    ensures ReadU64(ToLE(8, v) + rest) == Ok((v, rest))
  {
    hide ToLE, FromLE;
    TakeFront(ToLE(8, v), rest);
    FromLEToLE(8, v);
    assert Pow256(8) == 0x1_0000_0000_0000_0000;
  }

  lemma StrBack(utf8: Utf8, t: Text, rest: seq<byte>)
    requires utf8(t) && StrBytes(t).Ok?
    ensures ReadStr(utf8, StrBytes(t).value + rest) == Ok((t, rest))
  {
    hide ToLE, ReadU16;
    assert StrBytes(t).value + rest == ToLE(2, |t|) + (t + rest);
    U16Back(|t|, t + rest);
    TakeFront(t, rest);
  }

  lemma ZTimeBack(t: ZipTime, rest: seq<byte>)
    ensures ReadZTime(ZTimeBytes(t) + rest) == Ok((t, rest))
  {
    hide ToLE, ReadU16;
    var five := [t.month, t.day, t.hour, t.minute, t.second];
    assert ZTimeBytes(t) + rest == ToLE(2, t.year) + (five + rest);
    U16Back(t.year, five + rest);
    TakeFront(five, rest);
  }

  // ---- Ranges ----

  predicate RangeOk(r: CodeRange) {
    r.arch == ARCH_ARM64 || r.arch == ARCH_X86
  }

  predicate RangesOk(rs: seq<CodeRange>) {
    forall r :: r in rs ==> RangeOk(r)
  }

  lemma RangeBack(r: CodeRange, rest: seq<byte>)
    ensures ReadRange(RangeBytes(r) + rest) == if RangeOk(r) then Ok((r, rest)) else Err(BadArchive)
  {
    hide ToLE, ReadU64, ReadU8;
    assert RangeBytes(r) + rest == ToLE(8, r.off) + (ToLE(8, r.size) + ([r.arch] + rest));
    U64Back(r.off, ToLE(8, r.size) + ([r.arch] + rest));
    U64Back(r.size, [r.arch] + rest);
    U8Back(r.arch, rest);
  }

  lemma {:induction false} RangeListBack(rs: seq<CodeRange>, rest: seq<byte>)
    ensures ReadRangeList(RangeListBytes(rs) + rest, |rs|) == if RangesOk(rs) then Ok((rs, rest)) else Err(BadArchive)
  {
    hide RangeBytes, ReadRange;
    if rs == [] {
      assert RangeListBytes(rs) + rest == rest;
    } else {
      var tail := RangeListBytes(rs[1..]) + rest;
      assert RangeListBytes(rs) + rest == RangeBytes(rs[0]) + tail;
      RangeBack(rs[0], tail);
      RangeListBack(rs[1..], rest);
      assert rs == [rs[0]] + rs[1..];
      assert RangesOk(rs) <==> RangeOk(rs[0]) && RangesOk(rs[1..]);
    }
  }

  lemma PlacementBack(rs: seq<CodeRange>, off: u64, size: u64, rest: seq<byte>)
    requires PlacementBytes(rs, off, size).Ok?
    ensures ReadPlacement(PlacementBytes(rs, off, size).value + rest)
            == if RangesOk(rs) then Ok((Placement(rs, off, size), rest)) else Err(BadArchive)
  {
    hide ToLE, ReadU64, ReadU16, ReadRangeList, RangeListBytes;
    var s3 := ToLE(8, size) + rest;
    var s2 := ToLE(8, off) + s3;
    assert PlacementBytes(rs, off, size).value + rest == ToLE(2, |rs|) + (RangeListBytes(rs) + s2);
    U16Back(|rs|, RangeListBytes(rs) + s2);
    RangeListBack(rs, s2);
    U64Back(off, s3);
    U64Back(size, rest);
  }

  // ---- Inner entries of a zip ----

  /** The strings of an inner entry are strings. */
  predicate InnerTexts(utf8: Utf8, z: ZipInner) {
    utf8(z.path) && utf8(OrEmpty(z.linkTarget))
  }

  /** What the parser insists on and the encoder does not check. */
  predicate InnerOk(z: ZipInner) {
    z.kind <= 2 && z.path != [] && (z.kind == ZIP_FILE ==> RangesOk(z.codeRanges))
  }

  /** The fields that the kind of the entry does not store, reset. */
  function CanonInner(z: ZipInner): ZipInner {
    if z.kind == ZIP_FILE then z.(linkTarget := None)
    else ZipInner(z.kind, z.path, ZIP_STORED, z.unixMode, z.mtime, 0,
                  if z.kind == ZIP_LINK then Some(OrEmpty(z.linkTarget)) else None, [], 0, 0)
  }

  lemma ModeAndTimeBack(mode: u32, t: ZipTime, rest: seq<byte>)
    ensures ReadU32(ToLE(4, mode) + ZTimeBytes(t) + rest) == Ok((mode, ZTimeBytes(t) + rest))
    ensures ReadZTime(ZTimeBytes(t) + rest) == Ok((t, rest))
  {
    hide ToLE, ReadU32, ReadZTime, ZTimeBytes;
    assert ToLE(4, mode) + ZTimeBytes(t) + rest == ToLE(4, mode) + (ZTimeBytes(t) + rest);
    U32Back(mode, ZTimeBytes(t) + rest);
    ZTimeBack(t, rest);
  }

  lemma InnerBodyBack(utf8: Utf8, z: ZipInner, rest: seq<byte>)
    requires InnerTexts(utf8, z) && z.kind <= 2 && InnerBody(z).Ok?
    ensures ReadInnerBody(utf8, InnerBody(z).value + rest, z.kind, z.path)
            == if z.kind == ZIP_FILE && !RangesOk(z.codeRanges) then Err(BadArchive) else Ok((CanonInner(z), rest))
  {
    hide ToLE, ReadU8, ReadU32, ReadZTime, ZTimeBytes, ReadPlacement, PlacementBytes, ReadStr, StrBytes;
    var mt := ToLE(4, z.unixMode) + ZTimeBytes(z.mtime);
    if z.kind == ZIP_FILE {
      var p := PlacementBytes(z.codeRanges, z.solidOff, z.solidSize).value;
      var s4 := p + rest;
      var s3 := ToLE(4, z.crc) + s4;
      assert InnerBody(z).value + rest == [z.method_] + (mt + s3);
      U8Back(z.method_, mt + s3);
      ModeAndTimeBack(z.unixMode, z.mtime, s3);
      U32Back(z.crc, s4);
      PlacementBack(z.codeRanges, z.solidOff, z.solidSize, rest);
    } else if z.kind == ZIP_LINK {
      var target := StrBytes(OrEmpty(z.linkTarget)).value;
      assert InnerBody(z).value + rest == target + (mt + rest);
      StrBack(utf8, OrEmpty(z.linkTarget), mt + rest);
      ModeAndTimeBack(z.unixMode, z.mtime, rest);
    } else {
      ModeAndTimeBack(z.unixMode, z.mtime, rest);
    }
  }

  lemma InnerBack(utf8: Utf8, z: ZipInner, rest: seq<byte>)
    requires InnerTexts(utf8, z) && InnerBytes(z).Ok?
    ensures ReadInner(utf8, InnerBytes(z).value + rest) == if InnerOk(z) then Ok((CanonInner(z), rest)) else Err(BadArchive)
  {
    hide ReadU8, ReadStr, StrBytes, InnerBody, ReadInnerBody;
    var path, body := StrBytes(z.path).value, InnerBody(z).value;
    assert InnerBytes(z).value + rest == [z.kind] + (path + (body + rest));
    U8Back(z.kind, path + (body + rest));
    StrBack(utf8, z.path, body + rest);
    if z.kind <= 2 && z.path != [] {
      InnerBodyBack(utf8, z, rest);
    }
  }

  predicate InnersOk(zs: seq<ZipInner>) {
    forall z :: z in zs ==> InnerOk(z)
  }

  predicate InnersTexts(utf8: Utf8, zs: seq<ZipInner>) {
    forall z :: z in zs ==> InnerTexts(utf8, z)
  }

  function CanonInners(zs: seq<ZipInner>): (cs: seq<ZipInner>)
    ensures |cs| == |zs| && forall i :: 0 <= i < |zs| ==> cs[i] == CanonInner(zs[i])
  {
    if zs == [] then [] else [CanonInner(zs[0])] + CanonInners(zs[1..])
  }

  lemma {:induction false} InnerListBack(utf8: Utf8, zs: seq<ZipInner>, rest: seq<byte>)
    requires InnersTexts(utf8, zs) && InnerListBytes(zs).Ok?
    ensures ReadInnerList(utf8, InnerListBytes(zs).value + rest, |zs|)
            == if InnersOk(zs) then Ok((CanonInners(zs), rest)) else Err(BadArchive)
    decreases zs
  {
    hide InnerBytes, ReadInner, InnerOk;
    if zs == [] {
      assert InnerListBytes(zs).value + rest == rest;
    } else {
      var tail := InnerListBytes(zs[1..]).value + rest;
      assert InnerListBytes(zs).value + rest == InnerBytes(zs[0]).value + tail;
      InnerBack(utf8, zs[0], tail);
      InnerListBack(utf8, zs[1..], rest);
      assert InnersOk(zs) <==> InnerOk(zs[0]) && InnersOk(zs[1..]) by {
        assert zs == [zs[0]] + zs[1..];
      }
    }
  }

  // ---- Metadata ----

  predicate MetaTexts(utf8: Utf8, m: FileMeta) {
    m.context.Some? ==> utf8(m.context.value)
  }

  function CanonOwner(v: Option<u32>): Option<u32> {
    OwnerOf(OrMax(v))
  }

  /** The mode masked to twelve bits, and the all-ones owner folded into "absent". */
  function CanonMeta(m: FileMeta): FileMeta {
    FileMeta(if m.mode.Some? then Some(m.mode.value % 0x1000) else None, CanonOwner(m.uid), CanonOwner(m.gid), m.context)
  }

  lemma FlagsBack(m: FileMeta)
    ensures var f := MetaFlags(m);
            f < 8 && (f % 2 == 1 <==> m.mode.Some?) && ((f / 2) % 2 == 1 <==> HasOwner(m)) && (f / 4 == 1 <==> m.context.Some?)
  {
  }

  lemma MetaBack(utf8: Utf8, m: FileMeta, rest: seq<byte>)
    requires MetaTexts(utf8, m) && MetaBytes(m).Ok?
    ensures ReadMeta(utf8, MetaBytes(m).value + rest) == Ok((CanonMeta(m), rest))
  {
    hide ToLE, ReadU8, ReadU32, ReadStr, StrBytes, MetaFlags;
    var mode := if m.mode.Some? then ToLE(4, m.mode.value) else [];
    var owner := if HasOwner(m) then ToLE(4, OrMax(m.uid)) + ToLE(4, OrMax(m.gid)) else [];
    var context := if m.context.Some? then StrBytes(m.context.value).value else [];
    assert MetaBytes(m).value + rest == [MetaFlags(m)] + (mode + (owner + (context + rest)));
    FlagsBack(m);
    U8Back(MetaFlags(m), mode + (owner + (context + rest)));
    var s3 := context + rest;
    var s2 := owner + s3;
    if m.mode.Some? {
      U32Back(m.mode.value, s2);
    } else {
      assert mode + s2 == s2;
    }
    if HasOwner(m) {
      assert s2 == ToLE(4, OrMax(m.uid)) + (ToLE(4, OrMax(m.gid)) + s3);
      U32Back(OrMax(m.uid), ToLE(4, OrMax(m.gid)) + s3);
      U32Back(OrMax(m.gid), s3);
    } else {
      assert s2 == s3;
    }
    if m.context.Some? {
      StrBack(utf8, m.context.value, rest);
    } else {
      assert s3 == rest;
    }
  }

  // ---- Entries ----

  predicate EntryTexts(utf8: Utf8, e: PackEntry) {
    utf8(e.path) && MetaTexts(utf8, e.meta) && utf8(OrEmpty(e.linkTarget)) && InnersTexts(utf8, e.zipInners)
  }

  /** What the parser insists on and the encoder does not check. */
  predicate EntryOk(e: PackEntry) {
    e.path != [] && (e.kind == File ==> RangesOk(e.codeRanges)) && (e.kind == Zip ==> InnersOk(e.zipInners))
  }

  function CanonEntry(e: PackEntry): PackEntry {
    match e.kind
    case File => PackEntry(e.path, File, CanonMeta(e.meta), None, e.codeRanges, e.solidOff, e.solidSize, [])
    case Link => PackEntry(e.path, Link, CanonMeta(e.meta), Some(OrEmpty(e.linkTarget)), [], 0, 0, [])
    case Dir => PackEntry(e.path, Dir, CanonMeta(e.meta), None, [], 0, 0, [])
    case Zip => PackEntry(e.path, Zip, CanonMeta(e.meta), None, [], 0, 0, CanonInners(e.zipInners))
  }

  lemma EntryBodyBack(utf8: Utf8, e: PackEntry, meta: FileMeta, rest: seq<byte>)
    requires EntryTexts(utf8, e) && e.path != [] && EntryBody(e).Ok? && meta == CanonMeta(e.meta)
    ensures ReadEntryBody(utf8, EntryBody(e).value + rest, e.path, e.kind, meta)
            == if EntryOk(e) then Ok((CanonEntry(e), rest)) else Err(BadArchive)
  {
    hide ToLE, ReadU16, ReadPlacement, PlacementBytes, ReadStr, StrBytes, ReadInnerList, InnerListBytes, RangesOk, InnersOk, CanonMeta;
    match e.kind
    case File => PlacementBack(e.codeRanges, e.solidOff, e.solidSize, rest);
    case Link => StrBack(utf8, OrEmpty(e.linkTarget), rest);
    case Dir => assert EntryBody(e).value + rest == rest;
    case Zip =>
      var inners := InnerListBytes(e.zipInners).value;
      assert EntryBody(e).value + rest == ToLE(2, |e.zipInners|) + (inners + rest);
      U16Back(|e.zipInners|, inners + rest);
      InnerListBack(utf8, e.zipInners, rest);
  }

  lemma EntryBack(utf8: Utf8, e: PackEntry, rest: seq<byte>)
    requires EntryTexts(utf8, e) && EntryBytes(e).Ok?
    ensures ReadEntry(utf8, EntryBytes(e).value + rest) == if EntryOk(e) then Ok((CanonEntry(e), rest)) else Err(BadArchive)
  {
    hide ReadU8, ReadStr, StrBytes, ReadMeta, MetaBytes, ReadEntryBody, EntryBody, CanonEntry;
    var path, meta, body := StrBytes(e.path).value, MetaBytes(e.meta).value, EntryBody(e).value;
    var s2 := meta + (body + rest);
    assert EntryBytes(e).value + rest == path + ([KindByte(e.kind)] + s2);
    StrBack(utf8, e.path, [KindByte(e.kind)] + s2);
    if e.path != [] {
      U8Back(KindByte(e.kind), s2);
      assert KindOf(KindByte(e.kind)) == Ok(e.kind);
      MetaBack(utf8, e.meta, body + rest);
      EntryBodyBack(utf8, e, CanonMeta(e.meta), rest);
    }
  }

  predicate EntriesOk(es: seq<PackEntry>) {
    forall e :: e in es ==> EntryOk(e)
  }

  predicate EntriesTexts(utf8: Utf8, es: seq<PackEntry>) {
    forall e :: e in es ==> EntryTexts(utf8, e)
  }

  function CanonEntries(es: seq<PackEntry>): (cs: seq<PackEntry>)
    ensures |cs| == |es| && forall i :: 0 <= i < |es| ==> cs[i] == CanonEntry(es[i])
  {
    if es == [] then [] else [CanonEntry(es[0])] + CanonEntries(es[1..])
  }

  lemma {:induction false} EntryListBack(utf8: Utf8, es: seq<PackEntry>, rest: seq<byte>)
    requires EntriesTexts(utf8, es) && EntryListBytes(es).Ok?
    ensures ReadEntryList(utf8, EntryListBytes(es).value + rest, |es|)
            == if EntriesOk(es) then Ok((CanonEntries(es), rest)) else Err(BadArchive)
    decreases es
  {
    hide EntryBytes, ReadEntry, EntryOk, CanonEntry;
    if es == [] {
      assert EntryListBytes(es).value + rest == rest;
    } else {
      var tail := EntryListBytes(es[1..]).value + rest;
      assert EntryListBytes(es).value + rest == EntryBytes(es[0]).value + tail;
      EntryBack(utf8, es[0], tail);
      EntryListBack(utf8, es[1..], rest);
      assert EntriesOk(es) <==> EntryOk(es[0]) && EntriesOk(es[1..]) by {
        assert es == [es[0]] + es[1..];
      }
    }
  }

  predicate ParserAccepts(es: seq<PackEntry>) {
    1 <= |es| <= MAX_ENTRIES && EntriesOk(es)
  }

  /**
   * A written container reads back in canonical form with exactly its solid payload, if and only if it
   * has entries, not too many, with non-empty paths, known architectures and known inner kinds.
   */
  lemma ContainerBack(utf8: Utf8, es: seq<PackEntry>, solid: seq<byte>)
    requires EntriesTexts(utf8, es) && |solid| <= U64_MAX && ContainerBytes(es, solid).Ok?
    ensures ParseContainer(utf8, ContainerBytes(es, solid).value)
            == if ParserAccepts(es) then Ok(Container(CanonEntries(es), solid)) else Err(BadArchive)
  {
    hide ToLE, ReadU32, ReadU64, ReadEntryList, EntryListBytes, EntriesOk;
    var entries := EntryListBytes(es).value;
    var s5 := ToLE(8, |solid|) + solid;
    var s3 := entries + s5;
    var s2 := ToLE(4, |es|) + s3;
    var s1 := ToLE(4, 0) + s2;
    assert ContainerBytes(es, solid).value == MAGIC2 + s1;
    TakeFront(MAGIC2, s1);
    U32Back(0, s2);
    U32Back(|es|, s3);
    EntryListBack(utf8, es, s5);
    U64Back(|solid|, solid);
  }
}

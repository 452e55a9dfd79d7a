/** The parser accepts what the encoder can write and nothing else: src/pack.rs. */
module ContainerExact {
  import opened Bytes
  import opened ContainerFormat
  import opened ContainerRoundTrip
  import opened ContainerFraming

  // ---- A reader that succeeds has consumed what the writer writes for the value ----

  lemma TakeWas(s: seq<byte>, n: nat)
    requires Take(s, n).Ok?
    ensures s == Take(s, n).value.0 + Take(s, n).value.1 && |Take(s, n).value.0| == n
  {
  }

  lemma U8Was(s: seq<byte>)
    requires ReadU8(s).Ok?
    ensures s == [ReadU8(s).value.0] + ReadU8(s).value.1
  {
    TakeWas(s, 1);
  }

  lemma U16Was(s: seq<byte>)
    requires ReadU16(s).Ok?
    ensures s == ToLE(2, ReadU16(s).value.0) + ReadU16(s).value.1
  {
    hide ToLE, FromLE;
    TakeWas(s, 2);
    ToLEFromLE(Take(s, 2).value.0);
  }

  lemma U32Was(s: seq<byte>)
    requires ReadU32(s).Ok?
    ensures s == ToLE(4, ReadU32(s).value.0) + ReadU32(s).value.1
  {
    hide ToLE, FromLE;
    TakeWas(s, 4);
    ToLEFromLE(Take(s, 4).value.0);
  }

  lemma U64Was(s: seq<byte>)
    requires ReadU64(s).Ok?
    ensures s == ToLE(8, ReadU64(s).value.0) + ReadU64(s).value.1
  {
    hide ToLE, FromLE;
    TakeWas(s, 8);
    ToLEFromLE(Take(s, 8).value.0);
  }

  lemma Regroup<T>(a: seq<T>, b: seq<T>, c: seq<T>)
    ensures a + (b + c) == a + b + c
  {
  }

  lemma StrWas(utf8: Utf8, s: seq<byte>)
    requires ReadStr(utf8, s).Ok?
    ensures var (t, rest) := ReadStr(utf8, s).value; StrBytes(t).Ok? && s == StrBytes(t).value + rest
  {
    hide ToLE, ReadU16;
    U16Was(s);
    var (len, s1) := ReadU16(s).value;
    TakeWas(s1, len);
    Regroup(ToLE(2, len), Take(s1, len).value.0, Take(s1, len).value.1);
  }

  lemma ZTimeWas(s: seq<byte>)
    requires ReadZTime(s).Ok?
    ensures var (t, rest) := ReadZTime(s).value; s == ZTimeBytes(t) + rest
  {
    hide ToLE, ReadU16;
    U16Was(s);
    var (year, s1) := ReadU16(s).value;
    TakeWas(s1, 5);
    var b := Take(s1, 5).value.0;
    assert b == [b[0], b[1], b[2], b[3], b[4]];
    Regroup(ToLE(2, year), b, Take(s1, 5).value.1);
  }

  lemma RangeWas(s: seq<byte>)
    requires ReadRange(s).Ok?
    ensures var (r, rest) := ReadRange(s).value; RangeOk(r) && s == RangeBytes(r) + rest
  {
    hide ToLE, ReadU64, ReadU8;
    U64Was(s);
    var (off, s1) := ReadU64(s).value;
    U64Was(s1);
    var (size, s2) := ReadU64(s1).value;
    U8Was(s2);
    var (arch, s3) := ReadU8(s2).value;
    Regroup(ToLE(8, off), ToLE(8, size), s2);
    Regroup(ToLE(8, off) + ToLE(8, size), [arch], s3);
  }

  lemma {:induction false} RangeListWas(s: seq<byte>, n: nat)
    requires ReadRangeList(s, n).Ok?
    ensures var (rs, rest) := ReadRangeList(s, n).value; |rs| == n && RangesOk(rs) && s == RangeListBytes(rs) + rest
    decreases n
  {
    hide ReadRange, RangeBytes;
    if n > 0 {
      RangeWas(s);
      var (r, s1) := ReadRange(s).value;
      RangeListWas(s1, n - 1);
      var (rs, rest) := ReadRangeList(s1, n - 1).value;
      assert ([r] + rs)[1..] == rs;
      Regroup(RangeBytes(r), RangeListBytes(rs), rest);
    } else {
      assert [] + s == s;
    }
  }

  lemma PlacementWas(s: seq<byte>)
    requires ReadPlacement(s).Ok?
    ensures var (p, rest) := ReadPlacement(s).value;
            var w := PlacementBytes(p.ranges, p.off, p.size);
            RangesOk(p.ranges) && w.Ok? && s == w.value + rest
  {
    hide ToLE, ReadU16, ReadU64, ReadRangeList, RangeListBytes;
    U16Was(s);
    var (n, s1) := ReadU16(s).value;
    RangeListWas(s1, n);
    var (rs, s2) := ReadRangeList(s1, n).value;
    U64Was(s2);
    var (off, s3) := ReadU64(s2).value;
    U64Was(s3);
    var (size, s4) := ReadU64(s3).value;
    Regroup(ToLE(2, n), RangeListBytes(rs), s2);
    Regroup(ToLE(2, n) + RangeListBytes(rs), ToLE(8, off), s3);
    Regroup(ToLE(2, n) + RangeListBytes(rs) + ToLE(8, off), ToLE(8, size), s4);
  }

  lemma ModeAndTimeWas(s: seq<byte>)
    requires ReadU32(s).Ok? && ReadZTime(ReadU32(s).value.1).Ok?
    ensures var (mode, s1) := ReadU32(s).value;
            var (t, rest) := ReadZTime(s1).value;
            s == ToLE(4, mode) + ZTimeBytes(t) + rest
  {
    hide ToLE, ReadU32, ReadZTime, ZTimeBytes;
    U32Was(s);
    var (mode, s1) := ReadU32(s).value;
    ZTimeWas(s1);
    Regroup(ToLE(4, mode), ZTimeBytes(ReadZTime(s1).value.0), ReadZTime(s1).value.1);
  }

  lemma InnerFileWas(utf8: Utf8, s: seq<byte>, path: Text)
    requires ReadInnerBody(utf8, s, ZIP_FILE, path).Ok?
    ensures var (z, rest) := ReadInnerBody(utf8, s, ZIP_FILE, path).value;
            InnerBody(z).Ok? && s == InnerBody(z).value + rest
  {
    hide ToLE, ReadU8, ReadU32, ReadZTime, ReadPlacement, ZTimeBytes, PlacementBytes;
    U8Was(s);
    var (method_, s1) := ReadU8(s).value;
    ModeAndTimeWas(s1);
    var (mode, s2) := ReadU32(s1).value;
    var (mtime, s3) := ReadZTime(s2).value;
    U32Was(s3);
    var (crc, s4) := ReadU32(s3).value;
    PlacementWas(s4);
    var (p, rest) := ReadPlacement(s4).value;
    SixParts([method_], ToLE(4, mode), ZTimeBytes(mtime), ToLE(4, crc), PlacementBytes(p.ranges, p.off, p.size).value, rest);
  }

  lemma SixParts<T>(a: seq<T>, b: seq<T>, c: seq<T>, d: seq<T>, e: seq<T>, f: seq<T>)
    ensures a + (b + c + (d + (e + f))) == (a + b + c + d + e) + f
  {
  }

  lemma InnerBodyWas(utf8: Utf8, s: seq<byte>, kind: byte, path: Text)
    requires kind <= 2 && ReadInnerBody(utf8, s, kind, path).Ok?
    ensures var (z, rest) := ReadInnerBody(utf8, s, kind, path).value;
            z.kind == kind && z.path == path && InnerBody(z).Ok? && s == InnerBody(z).value + rest
  {
    hide ToLE, ReadU8, ReadU32, ReadZTime, ReadPlacement, ReadStr, StrBytes, ZTimeBytes, PlacementBytes;
    if kind == ZIP_FILE {
      InnerFileWas(utf8, s, path);
    } else if kind == ZIP_LINK {
      StrWas(utf8, s);
      var (target, s1) := ReadStr(utf8, s).value;
      ModeAndTimeWas(s1);
      var (mode, s2) := ReadU32(s1).value;
      var (mtime, rest) := ReadZTime(s2).value;
      FourJoined(StrBytes(target).value, ToLE(4, mode), ZTimeBytes(mtime), rest);
    } else {
      ModeAndTimeWas(s);
    }
  }

  lemma FourJoined<T>(a: seq<T>, b: seq<T>, c: seq<T>, d: seq<T>)
    ensures a + (b + c + d) == a + b + c + d && a + (b + (c + d)) == a + b + c + d
  {
  }

  lemma InnerWas(utf8: Utf8, s: seq<byte>)
    requires ReadInner(utf8, s).Ok?
    ensures var (z, rest) := ReadInner(utf8, s).value; InnerBytes(z).Ok? && s == InnerBytes(z).value + rest
  {
    hide ReadU8, ReadStr, ReadInnerBody, StrBytes, InnerBody;
    U8Was(s);
    var (kind, s1) := ReadU8(s).value;
    StrWas(utf8, s1);
    var (path, s2) := ReadStr(utf8, s1).value;
    InnerBodyWas(utf8, s2, kind, path);
    var (z, rest) := ReadInnerBody(utf8, s2, kind, path).value;
    FourJoined([kind], StrBytes(path).value, InnerBody(z).value, rest);
  }

  lemma {:induction false} InnerListWas(utf8: Utf8, s: seq<byte>, n: nat)
    requires ReadInnerList(utf8, s, n).Ok?
    ensures var (zs, rest) := ReadInnerList(utf8, s, n).value;
            |zs| == n && InnerListBytes(zs).Ok? && s == InnerListBytes(zs).value + rest
    decreases n
  {
    hide ReadInner, InnerBytes;
    if n > 0 {
      InnerWas(utf8, s);
      var (z, s1) := ReadInner(utf8, s).value;
      InnerListWas(utf8, s1, n - 1);
      var (zs, rest) := ReadInnerList(utf8, s1, n - 1).value;
      assert ([z] + zs)[1..] == zs;
      Regroup(InnerBytes(z).value, InnerListBytes(zs).value, rest);
    } else {
      assert [] + s == s;
    }
  }

  // ---- Metadata: the mode may have carried more bits, and the owner may have been a pair of all-ones ----

  lemma ModeWas(s: seq<byte>, present: bool) returns (mode: Option<u32>)
    requires ReadMode(s, present).Ok?
    ensures mode.Some? == present
    ensures ReadMode(s, present).value.0 == if mode.Some? then Some(mode.value % 0x1000) else None
    ensures s == (if mode.Some? then ToLE(4, mode.value) else []) + ReadMode(s, present).value.1
  {
    hide ToLE, ReadU32;
    if present {
      U32Was(s);
      mode := Some(ReadU32(s).value.0);
    } else {
      assert [] + s == s;
      mode := None;
    }
  }

  lemma OwnerWas(s: seq<byte>, present: bool) returns (uid: Option<u32>, gid: Option<u32>)
    requires ReadOwner(s, present).Ok?
    ensures uid.Some? == present && gid.Some? == present
    ensures ReadOwner(s, present).value.0 == (CanonOwner(uid), CanonOwner(gid))
    ensures s == (if present then ToLE(4, OrMax(uid)) + ToLE(4, OrMax(gid)) else []) + ReadOwner(s, present).value.1
  {
    hide ToLE, ReadU32;
    if present {
      U32Was(s);
      var (u, s1) := ReadU32(s).value;
      U32Was(s1);
      var (g, s2) := ReadU32(s1).value;
      uid, gid := Some(u), Some(g);
      Regroup(ToLE(4, u), ToLE(4, g), s2);
    } else {
      assert [] + s == s;
      uid, gid := None, None;
    }
  }

  lemma ContextWas(utf8: Utf8, s: seq<byte>, present: bool)
    requires ReadContext(utf8, s, present).Ok?
    ensures var (context, rest) := ReadContext(utf8, s, present).value;
            && context.Some? == present && (present ==> utf8(context.value) && StrBytes(context.value).Ok?)
            && s == (if present then StrBytes(context.value).value else []) + rest
  {
    hide ReadStr, StrBytes;
    if present {
      StrWas(utf8, s);
      StrRead(utf8, s);
    } else {
      assert [] + s == s;
    }
  }

  lemma FlagsWas(flags: byte, m: FileMeta)
    requires flags < 8 && m.mode.Some? == (flags % 2 == 1) && HasOwner(m) == ((flags / 2) % 2 == 1)
    requires m.context.Some? == (flags / 4 == 1)
    ensures MetaFlags(m) == flags
  {
  }

  lemma MetaWas(utf8: Utf8, s: seq<byte>) returns (m: FileMeta)
    requires ReadMeta(utf8, s).Ok?
    ensures MetaTexts(utf8, m) && CanonMeta(m) == ReadMeta(utf8, s).value.0
    ensures MetaBytes(m).Ok? && s == MetaBytes(m).value + ReadMeta(utf8, s).value.1
  {
    hide ToLE, ReadU8, ReadMode, ReadOwner, ReadContext, StrBytes, MetaFlags, CanonOwner, OrMax;
    U8Was(s);
    var (flags, s1) := ReadU8(s).value;
    var hasMode, hasOwner, hasContext := flags % 2 == 1, (flags / 2) % 2 == 1, flags / 4 == 1;
    var mode := ModeWas(s1, hasMode);
    var s2 := ReadMode(s1, hasMode).value.1;
    var uid, gid := OwnerWas(s2, hasOwner);
    var s3 := ReadOwner(s2, hasOwner).value.1;
    ContextWas(utf8, s3, hasContext);
    var (context, rest) := ReadContext(utf8, s3, hasContext).value;
    m := FileMeta(mode, uid, gid, context);
    FlagsWas(flags, m);
    FiveParts([flags], if mode.Some? then ToLE(4, mode.value) else [],
              if hasOwner then ToLE(4, OrMax(uid)) + ToLE(4, OrMax(gid)) else [],
              if hasContext then StrBytes(context.value).value else [], rest);
  }

  lemma FiveParts<T>(a: seq<T>, b: seq<T>, c: seq<T>, d: seq<T>, e: seq<T>)
    ensures a + (b + (c + (d + e))) == (a + b + c + d) + e
  {
  }

  // ---- Entries ----

  /** The bytes after the metadata are those of the kind's own fields, whatever the metadata. */
  lemma EntryBodyWas(utf8: Utf8, s: seq<byte>, path: Text, kind: EntryKind, meta: FileMeta)
    requires ReadEntryBody(utf8, s, path, kind, meta).Ok?
    ensures var (e, rest) := ReadEntryBody(utf8, s, path, kind, meta).value;
            && e.path == path && e.kind == kind && e.meta == meta
            && EntryBody(e).Ok? && s == EntryBody(e).value + rest
  {
    hide ToLE, ReadPlacement, ReadStr, ReadU16, ReadInnerList, PlacementBytes, StrBytes, InnerListBytes;
    match kind
    case File => PlacementWas(s);
    case Link => StrWas(utf8, s);
    case Dir => assert [] + s == s;
    case Zip =>
      U16Was(s);
      var (n, s1) := ReadU16(s).value;
      InnerListWas(utf8, s1, n);
      var (zs, rest) := ReadInnerList(utf8, s1, n).value;
      Regroup(ToLE(2, n), InnerListBytes(zs).value, rest);
  }

  lemma KindWas(b: byte)
    requires KindOf(b).Ok?
    ensures KindByte(KindOf(b).value) == b
  {
  }

  lemma EntryWas(utf8: Utf8, s: seq<byte>) returns (e: PackEntry)
    requires utf8([]) && ReadEntry(utf8, s).Ok?
    ensures EntryTexts(utf8, e) && EntryOk(e) && CanonEntry(e) == ReadEntry(utf8, s).value.0
    ensures EntryBytes(e).Ok? && s == EntryBytes(e).value + ReadEntry(utf8, s).value.1
  {
    hide ReadStr, ReadU8, ReadMeta, ReadEntryBody, StrBytes, MetaBytes, EntryBody, KindByte, KindOf, CanonMeta, MetaTexts, RangesOk,
         InnersOk, InnersTexts, CanonInners;
    StrWas(utf8, s);
    var (path, s1) := ReadStr(utf8, s).value;
    U8Was(s1);
    var (k, s2) := ReadU8(s1).value;
    KindWas(k);
    var m := MetaWas(utf8, s2);
    var (meta, s3) := ReadMeta(utf8, s2).value;
    EntryBodyWas(utf8, s3, path, KindOf(k).value, meta);
    EntryRead(utf8, s);
    var (was, rest) := ReadEntryBody(utf8, s3, path, KindOf(k).value, meta).value;
    e := was.(meta := m);
    SameBody(was, m);
    FiveParts(StrBytes(path).value, [k], MetaBytes(m).value, EntryBody(was).value, rest);
  }

  lemma SameBody(e: PackEntry, m: FileMeta)
    ensures EntryBody(e.(meta := m)) == EntryBody(e)
  {
  }

  lemma {:induction false} EntryListWas(utf8: Utf8, s: seq<byte>, n: nat) returns (es: seq<PackEntry>)
    requires utf8([]) && ReadEntryList(utf8, s, n).Ok?
    ensures |es| == n && EntriesTexts(utf8, es) && EntriesOk(es) && CanonEntries(es) == ReadEntryList(utf8, s, n).value.0
    ensures EntryListBytes(es).Ok? && s == EntryListBytes(es).value + ReadEntryList(utf8, s, n).value.1
    decreases n
  {
    hide ReadEntry, EntryTexts, EntryOk, CanonEntry, EntryBytes;
    if n > 0 {
      var e := EntryWas(utf8, s);
      var s1 := ReadEntry(utf8, s).value.1;
      var rest := EntryListWas(utf8, s1, n - 1);
      es := [e] + rest;
      assert es[1..] == rest;
      Regroup(EntryBytes(e).value, EntryListBytes(rest).value, ReadEntryList(utf8, s1, n - 1).value.1);
    } else {
      assert [] + s == s;
      es := [];
    }
  }

  // ---- The image ----

  /** Equal but for bytes 8 to 11, which nothing reads. */
  predicate SameUsed(x: seq<byte>, y: seq<byte>) {
    |x| >= 12 && |y| >= 12 && x[..8] == y[..8] && x[12..] == y[12..]
  }

  lemma UnusedBytes(utf8: Utf8, x: seq<byte>, y: seq<byte>)
    requires SameUsed(x, y)
    ensures ParseContainer(utf8, x) == ParseContainer(utf8, y)
  {
    hide FromLE, ReadEntryList, ReadU64;
    assert x[8..][4..] == x[12..] && y[8..][4..] == y[12..];
  }

  /** `data` is what the encoder writes for the entries `es`, which the parser shows as those of `c`. */
  ghost predicate WrittenAs(utf8: Utf8, data: seq<byte>, c: Container, es: seq<PackEntry>) {
    && ParserAccepts(es) && EntriesTexts(utf8, es) && CanonEntries(es) == c.entries && |c.solid| <= U64_MAX
    && ContainerBytes(es, c.solid).Ok? && SameUsed(data, ContainerBytes(es, c.solid).value)
  }

  lemma AcceptedWas(utf8: Utf8, data: seq<byte>) returns (es: seq<PackEntry>)
    requires utf8([]) && ParseContainer(utf8, data).Ok?
    ensures WrittenAs(utf8, data, ParseContainer(utf8, data).value, es)
  {
    hide ToLE, Take, ReadU32, ReadU64, ReadEntryList, EntryListBytes, EntriesOk, EntriesTexts, CanonEntries;
    TakeWas(data, 8);
    var s1 := Take(data, 8).value.1;
    U32Was(s1);
    var (flags, s2) := ReadU32(s1).value;
    U32Was(s2);
    var (count, s3) := ReadU32(s2).value;
    es := EntryListWas(utf8, s3, count);
    var s4 := ReadEntryList(utf8, s3, count).value.1;
    U64Was(s4);
    var (len, solid) := ReadU64(s4).value;
    ImageParts(MAGIC2, ToLE(4, flags), ToLE(4, 0), ToLE(4, count), EntryListBytes(es).value, ToLE(8, len), solid);
  }

  lemma ImageParts(magic: seq<byte>, flags: seq<byte>, zeros: seq<byte>, count: seq<byte>, entries: seq<byte>, len: seq<byte>,
                   solid: seq<byte>)
    requires |magic| == 8 && |flags| == 4 && |zeros| == 4
    ensures SameUsed(magic + (flags + (count + (entries + (len + solid)))), magic + zeros + count + entries + len + solid)
  {
    var tail := count + (entries + (len + solid));
    var x, y := magic + (flags + tail), magic + zeros + count + entries + len + solid;
    assert y == magic + (zeros + tail);
    assert x[..8] == magic && y[..8] == magic && x[12..] == tail && y[12..] == tail;
  }

  /**
   * Any bytes at all are accepted, with these entries and this payload, if and only if the encoder writes them, up to
   * four unused bytes, for entries that obey the parser's rules and whose canonical form those entries are.
   */
  lemma AcceptedExact(utf8: Utf8, data: seq<byte>, c: Container)
    requires utf8([])
    ensures ParseContainer(utf8, data) == Ok(c) <==> exists es :: WrittenAs(utf8, data, c, es)
  {
    hide ParseContainer, WrittenAs;
    if ParseContainer(utf8, data) == Ok(c) {
      var es := AcceptedWas(utf8, data);
    }
    if es :| WrittenAs(utf8, data, c, es) {
      WrittenIsAccepted(utf8, data, c, es);
    }
  }

  lemma WrittenIsAccepted(utf8: Utf8, data: seq<byte>, c: Container, es: seq<PackEntry>)
    requires WrittenAs(utf8, data, c, es)
    ensures ParseContainer(utf8, data) == Ok(c)
  {
    hide ParseContainer, ContainerBytes, ParserAccepts, EntriesTexts, SameUsed;
    ContainerBack(utf8, es, c.solid);
    UnusedBytes(utf8, data, ContainerBytes(es, c.solid).value);
  }
}

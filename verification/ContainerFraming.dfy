/** Exact framing, and what acceptance says about the entries. */
module ContainerFraming {
  import opened Bytes
  import opened ContainerFormat
  import opened ContainerRoundTrip

  // ---- Locality: a reader that succeeds consumes the same bytes whatever follows them ----

  lemma TakeLocal(s: seq<byte>, n: nat, t: seq<byte>)
    requires Take(s, n).Ok?
    ensures Take(s + t, n) == Ok((Take(s, n).value.0, Take(s, n).value.1 + t))
  {
    assert (s + t)[..n] == s[..n] && (s + t)[n..] == s[n..] + t;
  }

  lemma U8Local(s: seq<byte>, t: seq<byte>)
    requires ReadU8(s).Ok?
    ensures ReadU8(s + t) == Ok((ReadU8(s).value.0, ReadU8(s).value.1 + t))
  {
    TakeLocal(s, 1, t);
  }

  lemma U16Local(s: seq<byte>, t: seq<byte>)
    requires ReadU16(s).Ok?
    ensures ReadU16(s + t) == Ok((ReadU16(s).value.0, ReadU16(s).value.1 + t))
  {
    hide FromLE;
    TakeLocal(s, 2, t);
  }

  lemma U32Local(s: seq<byte>, t: seq<byte>)
    requires ReadU32(s).Ok?
    ensures ReadU32(s + t) == Ok((ReadU32(s).value.0, ReadU32(s).value.1 + t))
  {
    hide FromLE;
    TakeLocal(s, 4, t);
  }

  lemma U64Local(s: seq<byte>, t: seq<byte>)
    requires ReadU64(s).Ok?
    ensures ReadU64(s + t) == Ok((ReadU64(s).value.0, ReadU64(s).value.1 + t))
  {
    hide FromLE;
    TakeLocal(s, 8, t);
  }

  lemma StrLocal(utf8: Utf8, s: seq<byte>, t: seq<byte>)
    requires ReadStr(utf8, s).Ok?
    ensures ReadStr(utf8, s + t) == Ok((ReadStr(utf8, s).value.0, ReadStr(utf8, s).value.1 + t))
  {
    hide ReadU16, Take;
    U16Local(s, t);
    var (len, s1) := ReadU16(s).value;
    TakeLocal(s1, len, t);
  }

  lemma ZTimeLocal(s: seq<byte>, t: seq<byte>)
    requires ReadZTime(s).Ok?
    ensures ReadZTime(s + t) == Ok((ReadZTime(s).value.0, ReadZTime(s).value.1 + t))
  {
    hide ReadU16;
    U16Local(s, t);
    TakeLocal(ReadU16(s).value.1, 5, t);
  }

  lemma RangeLocal(s: seq<byte>, t: seq<byte>)
    requires ReadRange(s).Ok?
    ensures ReadRange(s + t) == Ok((ReadRange(s).value.0, ReadRange(s).value.1 + t))
  {
    hide ReadU64, ReadU8;
    U64Local(s, t);
    var s1 := ReadU64(s).value.1;
    U64Local(s1, t);
    U8Local(ReadU64(s1).value.1, t);
  }

  lemma {:induction false} RangeListLocal(s: seq<byte>, n: nat, t: seq<byte>)
    requires ReadRangeList(s, n).Ok?
    ensures ReadRangeList(s + t, n) == Ok((ReadRangeList(s, n).value.0, ReadRangeList(s, n).value.1 + t))
    decreases n
  {
    hide ReadRange;
    if n > 0 {
      RangeLocal(s, t);
      RangeListLocal(ReadRange(s).value.1, n - 1, t);
    }
  }

  lemma PlacementLocal(s: seq<byte>, t: seq<byte>)
    requires ReadPlacement(s).Ok?
    ensures ReadPlacement(s + t) == Ok((ReadPlacement(s).value.0, ReadPlacement(s).value.1 + t))
  {
    hide ReadU16, ReadU64, ReadRangeList;
    U16Local(s, t);
    var (n, s1) := ReadU16(s).value;
    RangeListLocal(s1, n, t);
    var s2 := ReadRangeList(s1, n).value.1;
    U64Local(s2, t);
    U64Local(ReadU64(s2).value.1, t);
  }

  lemma InnerBodyLocal(utf8: Utf8, s: seq<byte>, kind: byte, path: Text, t: seq<byte>)
    requires ReadInnerBody(utf8, s, kind, path).Ok?
    ensures ReadInnerBody(utf8, s + t, kind, path)
            == Ok((ReadInnerBody(utf8, s, kind, path).value.0, ReadInnerBody(utf8, s, kind, path).value.1 + t))
  {
    hide ReadU8, ReadU32, ReadZTime, ReadPlacement, ReadStr;
    if kind == ZIP_FILE {
      U8Local(s, t);
      var s1 := ReadU8(s).value.1;
      U32Local(s1, t);
      var s2 := ReadU32(s1).value.1;
      ZTimeLocal(s2, t);
      var s3 := ReadZTime(s2).value.1;
      U32Local(s3, t);
      PlacementLocal(ReadU32(s3).value.1, t);
    } else {
      var s1 := s;
      if kind == ZIP_LINK {
        StrLocal(utf8, s, t);
        s1 := ReadStr(utf8, s).value.1;
      }
      U32Local(s1, t);
      ZTimeLocal(ReadU32(s1).value.1, t);
    }
  }

  lemma InnerLocal(utf8: Utf8, s: seq<byte>, t: seq<byte>)
    requires ReadInner(utf8, s).Ok?
    ensures ReadInner(utf8, s + t) == Ok((ReadInner(utf8, s).value.0, ReadInner(utf8, s).value.1 + t))
  {
    hide ReadU8, ReadStr, ReadInnerBody;
    U8Local(s, t);
    var (kind, s1) := ReadU8(s).value;
    StrLocal(utf8, s1, t);
    var (path, s2) := ReadStr(utf8, s1).value;
    InnerBodyLocal(utf8, s2, kind, path, t);
  }

  lemma {:induction false} InnerListLocal(utf8: Utf8, s: seq<byte>, n: nat, t: seq<byte>)
    requires ReadInnerList(utf8, s, n).Ok?
    ensures ReadInnerList(utf8, s + t, n) == Ok((ReadInnerList(utf8, s, n).value.0, ReadInnerList(utf8, s, n).value.1 + t))
    decreases n
  {
    hide ReadInner;
    if n > 0 {
      InnerLocal(utf8, s, t);
      InnerListLocal(utf8, ReadInner(utf8, s).value.1, n - 1, t);
    }
  }

  lemma ModeLocal(s: seq<byte>, present: bool, t: seq<byte>)
    requires ReadMode(s, present).Ok?
    ensures ReadMode(s + t, present) == Ok((ReadMode(s, present).value.0, ReadMode(s, present).value.1 + t))
  {
    hide ReadU32;
    if present {
      U32Local(s, t);
    }
  }

  lemma OwnerLocal(s: seq<byte>, present: bool, t: seq<byte>)
    requires ReadOwner(s, present).Ok?
    ensures ReadOwner(s + t, present) == Ok((ReadOwner(s, present).value.0, ReadOwner(s, present).value.1 + t))
  {
    hide ReadU32;
    if present {
      U32Local(s, t);
      U32Local(ReadU32(s).value.1, t);
    }
  }

  lemma ContextLocal(utf8: Utf8, s: seq<byte>, present: bool, t: seq<byte>)
    requires ReadContext(utf8, s, present).Ok?
    ensures ReadContext(utf8, s + t, present) == Ok((ReadContext(utf8, s, present).value.0, ReadContext(utf8, s, present).value.1 + t))
  {
    hide ReadStr;
    if present {
      StrLocal(utf8, s, t);
    }
  }

  lemma MetaLocal(utf8: Utf8, s: seq<byte>, t: seq<byte>)
    requires ReadMeta(utf8, s).Ok?
    ensures ReadMeta(utf8, s + t) == Ok((ReadMeta(utf8, s).value.0, ReadMeta(utf8, s).value.1 + t))
  {
    hide ReadU8, ReadMode, ReadOwner, ReadContext;
    U8Local(s, t);
    var (flags, s1) := ReadU8(s).value;
    ModeLocal(s1, flags % 2 == 1, t);
    var s2 := ReadMode(s1, flags % 2 == 1).value.1;
    OwnerLocal(s2, (flags / 2) % 2 == 1, t);
    ContextLocal(utf8, ReadOwner(s2, (flags / 2) % 2 == 1).value.1, flags / 4 == 1, t);
  }

  lemma EntryBodyLocal(utf8: Utf8, s: seq<byte>, path: Text, kind: EntryKind, meta: FileMeta, t: seq<byte>)
    requires ReadEntryBody(utf8, s, path, kind, meta).Ok?
    ensures ReadEntryBody(utf8, s + t, path, kind, meta)
            == Ok((ReadEntryBody(utf8, s, path, kind, meta).value.0, ReadEntryBody(utf8, s, path, kind, meta).value.1 + t))
  {
    hide ReadPlacement, ReadStr, ReadU16, ReadInnerList;
    match kind
    case File => PlacementLocal(s, t);
    case Link => StrLocal(utf8, s, t);
    case Dir =>
    case Zip =>
      U16Local(s, t);
      var (n, s1) := ReadU16(s).value;
      InnerListLocal(utf8, s1, n, t);
  }

  lemma EntryLocal(utf8: Utf8, s: seq<byte>, t: seq<byte>)
    requires ReadEntry(utf8, s).Ok?
    ensures ReadEntry(utf8, s + t) == Ok((ReadEntry(utf8, s).value.0, ReadEntry(utf8, s).value.1 + t))
  {
    hide ReadStr, ReadU8, ReadMeta, ReadEntryBody;
    StrLocal(utf8, s, t);
    var (path, s1) := ReadStr(utf8, s).value;
    U8Local(s1, t);
    var (k, s2) := ReadU8(s1).value;
    MetaLocal(utf8, s2, t);
    var (meta, s3) := ReadMeta(utf8, s2).value;
    EntryBodyLocal(utf8, s3, path, KindOf(k).value, meta, t);
  }

  lemma {:induction false} EntryListLocal(utf8: Utf8, s: seq<byte>, n: nat, t: seq<byte>)
    requires ReadEntryList(utf8, s, n).Ok?
    ensures ReadEntryList(utf8, s + t, n) == Ok((ReadEntryList(utf8, s, n).value.0, ReadEntryList(utf8, s, n).value.1 + t))
    decreases n
  {
    hide ReadEntry;
    if n > 0 {
      EntryLocal(utf8, s, t);
      EntryListLocal(utf8, ReadEntry(utf8, s).value.1, n - 1, t);
    }
  }

  // ---- Exact framing ----

  /** Appending anything to an accepted image makes it unacceptable. */
  lemma ExtensionRejected(utf8: Utf8, data: seq<byte>, t: seq<byte>)
    requires ParseContainer(utf8, data).Ok? && t != []
    ensures ParseContainer(utf8, data + t) == Err(BadArchive)
  {
    hide Take, ReadU32, ReadU64, ReadEntryList;
    TakeLocal(data, 8, t);
    var s1 := Take(data, 8).value.1;
    U32Local(s1, t);
    var s2 := ReadU32(s1).value.1;
    U32Local(s2, t);
    var (count, s3) := ReadU32(s2).value;
    EntryListLocal(utf8, s3, count, t);
    U64Local(ReadEntryList(utf8, s3, count).value.1, t);
  }

  /** So no accepted image is a strict prefix of another. */
  lemma ExactFraming(utf8: Utf8, data: seq<byte>, k: nat)
    requires ParseContainer(utf8, data).Ok? && k < |data|
    ensures ParseContainer(utf8, data[..k]).Err?
  {
    assert data[..k] + data[k..] == data;
    if ParseContainer(utf8, data[..k]).Ok? {
      ExtensionRejected(utf8, data[..k], data[k..]);
    }
  }

  // ---- What was read is canonical and can be written again ----

  lemma StrRead(utf8: Utf8, s: seq<byte>)
    requires ReadStr(utf8, s).Ok?
    ensures var t := ReadStr(utf8, s).value.0; utf8(t) && StrBytes(t).Ok?
  {
  }

  lemma {:induction false} RangeListRead(s: seq<byte>, n: nat)
    requires ReadRangeList(s, n).Ok?
    ensures var rs := ReadRangeList(s, n).value.0; |rs| == n && RangesOk(rs)
    decreases n
  {
    hide ReadU64, ReadU8;
    if n > 0 {
      RangeListRead(ReadRange(s).value.1, n - 1);
    }
  }

  lemma PlacementRead(s: seq<byte>)
    requires ReadPlacement(s).Ok?
    ensures var p := ReadPlacement(s).value.0; RangesOk(p.ranges) && PlacementBytes(p.ranges, p.off, p.size).Ok?
  {
    hide ReadU16, ReadU64;
    var (n, s1) := ReadU16(s).value;
    RangeListRead(s1, n);
  }

  ghost predicate InnerSettled(utf8: Utf8, z: ZipInner) {
    InnerTexts(utf8, z) && InnerOk(z) && CanonInner(z) == z && InnerBytes(z).Ok?
  }

  lemma InnerRead(utf8: Utf8, s: seq<byte>)
    requires utf8([]) && ReadInner(utf8, s).Ok?
    ensures InnerSettled(utf8, ReadInner(utf8, s).value.0)
  {
    hide ReadU8, ReadU32, ReadZTime, ReadStr, ReadPlacement, StrBytes, PlacementBytes, ZTimeBytes, RangesOk;
    var (kind, s1) := ReadU8(s).value;
    StrRead(utf8, s1);
    var (path, s2) := ReadStr(utf8, s1).value;
    if kind == ZIP_FILE {
      var t1 := ReadU8(s2).value.1;
      var t2 := ReadU32(t1).value.1;
      var t3 := ReadZTime(t2).value.1;
      PlacementRead(ReadU32(t3).value.1);
    } else if kind == ZIP_LINK {
      StrRead(utf8, s2);
    }
  }

  lemma {:induction false} InnerListRead(utf8: Utf8, s: seq<byte>, n: nat)
    requires utf8([]) && ReadInnerList(utf8, s, n).Ok?
    ensures var zs := ReadInnerList(utf8, s, n).value.0;
            |zs| == n && InnersTexts(utf8, zs) && InnersOk(zs) && CanonInners(zs) == zs && InnerListBytes(zs).Ok?
    decreases n
  {
    hide ReadInner, InnerTexts, InnerOk, CanonInner, InnerBytes;
    if n > 0 {
      InnerRead(utf8, s);
      InnerListRead(utf8, ReadInner(utf8, s).value.1, n - 1);
      var zs := ReadInnerList(utf8, s, n).value.0;
      assert zs[1..] == ReadInnerList(utf8, ReadInner(utf8, s).value.1, n - 1).value.0;
    }
  }

  lemma MetaRead(utf8: Utf8, s: seq<byte>)
    requires ReadMeta(utf8, s).Ok?
    ensures var m := ReadMeta(utf8, s).value.0; MetaTexts(utf8, m) && CanonMeta(m) == m && MetaBytes(m).Ok?
  {
    hide ReadU8, ReadU32, ReadStr, StrBytes, MetaFlags;
    var (flags, s1) := ReadU8(s).value;
    var s2 := ReadMode(s1, flags % 2 == 1).value.1;
    var s3 := ReadOwner(s2, (flags / 2) % 2 == 1).value.1;
    if flags / 4 == 1 {
      StrRead(utf8, s3);
    }
  }

  ghost predicate EntrySettled(utf8: Utf8, e: PackEntry) {
    EntryTexts(utf8, e) && EntryOk(e) && CanonEntry(e) == e && EntryBytes(e).Ok?
  }

  lemma EntryRead(utf8: Utf8, s: seq<byte>)
    requires utf8([]) && ReadEntry(utf8, s).Ok?
    ensures EntrySettled(utf8, ReadEntry(utf8, s).value.0)
  {
    hide ReadStr, ReadU8, ReadU16, ReadMeta, ReadPlacement, ReadInnerList, StrBytes, MetaBytes, PlacementBytes, InnerListBytes,
         CanonMeta, MetaTexts, RangesOk, InnersOk, InnersTexts, CanonInners;
    StrRead(utf8, s);
    var (path, s1) := ReadStr(utf8, s).value;
    var (k, s2) := ReadU8(s1).value;
    MetaRead(utf8, s2);
    var (meta, s3) := ReadMeta(utf8, s2).value;
    NoInners(utf8);
    match KindOf(k).value
    case File => PlacementRead(s3);
    case Link => StrRead(utf8, s3);
    case Dir =>
    case Zip =>
      var (n, t1) := ReadU16(s3).value;
      InnerListRead(utf8, t1, n);
  }

  lemma NoInners(utf8: Utf8)
    ensures InnersTexts(utf8, [])
  {
  }

  lemma {:induction false} EntryListRead(utf8: Utf8, s: seq<byte>, n: nat)
    requires utf8([]) && ReadEntryList(utf8, s, n).Ok?
    ensures var es := ReadEntryList(utf8, s, n).value.0;
            |es| == n && EntriesTexts(utf8, es) && EntriesOk(es) && CanonEntries(es) == es && EntryListBytes(es).Ok?
    decreases n
  {
    hide ReadEntry, EntryTexts, EntryOk, CanonEntry, EntryBytes;
    if n > 0 {
      EntryRead(utf8, s);
      EntryListRead(utf8, ReadEntry(utf8, s).value.1, n - 1);
      var es := ReadEntryList(utf8, s, n).value.0;
      assert es[1..] == ReadEntryList(utf8, ReadEntry(utf8, s).value.1, n - 1).value.0;
    }
  }

  /** Any accepted image, whoever wrote it: its entries can be written again and read back unchanged. */
  lemma RewriteStable(utf8: Utf8, data: seq<byte>, solid: seq<byte>)
    requires utf8([]) && ParseContainer(utf8, data).Ok? && |solid| <= U64_MAX
    ensures var es := ParseContainer(utf8, data).value.entries;
            && ContainerBytes(es, solid).Ok?
            && ParseContainer(utf8, ContainerBytes(es, solid).value) == Ok(Container(es, solid))
  {
    hide Take, ReadU32, ReadU64, ReadEntryList, EntryListBytes;
    var s2 := ReadU32(Take(data, 8).value.1).value.1;
    var (count, s3) := ReadU32(s2).value;
    EntryListRead(utf8, s3, count);
    ContainerBack(utf8, ParseContainer(utf8, data).value.entries, solid);
  }
}

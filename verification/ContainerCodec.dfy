/** The growing output buffer and the advancing cursor of src/pack.rs. */
module ContainerCodec {
  import opened Bytes
  import opened ContainerFormat

  /** A `Vec<u8>` that is only appended to. */
  class Output {
    var bytes: seq<byte>

    constructor ()
      ensures bytes == []
    {
      bytes := [];
    }

    /** What a writer that may fail does to the buffer; after a failure the buffer is dropped. */
    ghost predicate Wrote(was: seq<byte>, spec: Result<seq<byte>>, r: Result<()>)
      reads this
    {
      match spec
      case Ok(b) => r == Ok(()) && bytes == was + b
      case Err(e) => r == Err(e)
    }

    method Extend(s: seq<byte>)
      modifies this
      ensures bytes == old(bytes) + s
    {
      bytes := bytes + s;
    }

    method PushStr(s: Text) returns (r: Result<()>)
      modifies this
      ensures Wrote(old(bytes), StrBytes(s), r)
    {
      if |s| > U16_MAX {
        return Err(TooLarge);
      }
      Extend(ToLE(2, |s|));
      Extend(s);
      return Ok(());
    }

    method PushZTime(t: ZipTime)
      modifies this
      ensures bytes == old(bytes) + ZTimeBytes(t)
    {
      Extend(ToLE(2, t.year));
      Extend([t.month]);
      Extend([t.day]);
      Extend([t.hour]);
      Extend([t.minute]);
      Extend([t.second]);
    }

    method PushRange(r: CodeRange)
      modifies this
      ensures bytes == old(bytes) + RangeBytes(r)
    {
      hide ToLE;
      Extend(ToLE(8, r.off));
      Extend(ToLE(8, r.size));
      Extend([r.arch]);
    }

    method PushPlacement(rs: seq<CodeRange>, off: u64, size: u64) returns (r: Result<()>)
      modifies this
      ensures Wrote(old(bytes), PlacementBytes(rs, off, size), r)
    {
      if |rs| > U16_MAX {
        return Err(TooLarge);
      }
      hide ToLE, RangeBytes;
      Extend(ToLE(2, |rs|));
      ghost var all := bytes + RangeListBytes(rs);
      assert rs[0..] == rs;
      for i := 0 to |rs|
        invariant bytes + RangeListBytes(rs[i..]) == all
      {
        assert rs[i..][1..] == rs[i + 1..];
        PushRange(rs[i]);
      }
      assert bytes == all;
      Extend(ToLE(8, off));
      Extend(ToLE(8, size));
      return Ok(());
    }

    method EncodeZipInner(z: ZipInner) returns (r: Result<()>)
      modifies this
      ensures Wrote(old(bytes), InnerBytes(z), r)
    {
      hide ToLE, StrBytes, PlacementBytes, ZTimeBytes;
      ghost var was := bytes;
      Extend([z.kind]);
      var _ :- PushStr(z.path);
      ghost var head := bytes;
      if z.kind == ZIP_FILE {
        if z.method_ != ZIP_STORED && z.method_ != ZIP_DEFLATED {
          return Err(TooLarge);
        }
        Extend([z.method_]);
        Extend(ToLE(4, z.unixMode));
        PushZTime(z.mtime);
        Extend(ToLE(4, z.crc));
        var _ :- PushPlacement(z.codeRanges, z.solidOff, z.solidSize);
      } else if z.kind == ZIP_LINK {
        var _ :- PushStr(OrEmpty(z.linkTarget));
        Extend(ToLE(4, z.unixMode));
        PushZTime(z.mtime);
      } else {
        Extend(ToLE(4, z.unixMode));
        PushZTime(z.mtime);
      }
      assert bytes == head + InnerBody(z).value;
      assert was + [z.kind] + StrBytes(z.path).value + InnerBody(z).value == was + InnerBytes(z).value;
      return Ok(());
    }

    method EncodeMeta(m: FileMeta) returns (r: Result<()>)
      modifies this
      ensures Wrote(old(bytes), MetaBytes(m), r)
    {
      hide ToLE, StrBytes;
      ghost var was := bytes;
      var flags := 0;
      if m.mode.Some? {
        flags := flags + 1;
      }
      if m.uid.Some? || m.gid.Some? {
        flags := flags + 2;
      }
      if m.context.Some? {
        flags := flags + 4;
      }
      Extend([flags]);
      if m.mode.Some? {
        Extend(ToLE(4, m.mode.value));
      }
      ghost var mode := [flags] + (if m.mode.Some? then ToLE(4, m.mode.value) else []);
      assert flags == MetaFlags(m) && bytes == was + mode;
      if m.uid.Some? || m.gid.Some? {
        Extend(ToLE(4, OrMax(m.uid)));
        Extend(ToLE(4, OrMax(m.gid)));
      }
      ghost var owner := mode + (if HasOwner(m) then ToLE(4, OrMax(m.uid)) + ToLE(4, OrMax(m.gid)) else []);
      assert bytes == was + owner;
      if m.context.Some? {
        var _ :- PushStr(m.context.value);
      }
      return Ok(());
    }

    method EncodeInners(zs: seq<ZipInner>) returns (r: Result<()>)
      modifies this
      ensures Wrote(old(bytes), InnerListBytes(zs), r)
    {
      hide InnerBytes;
      ghost var was, done := bytes, [];
      assert zs[0..] == zs;
      PrependNothing(InnerListBytes(zs));
      for i := 0 to |zs|
        invariant bytes == was + done && InnerListBytes(zs) == Prepend(done, InnerListBytes(zs[i..]))
      {
        assert zs[i..][1..] == zs[i + 1..];
        ghost var before := bytes;
        var step := EncodeZipInner(zs[i]);
        if step.Err? {
          return step;
        }
        ghost var b := InnerBytes(zs[i]).value;
        PrependAssociative(done, b, InnerListBytes(zs[i + 1..]));
        assert InnerListBytes(zs[i..]) == Prepend(b, InnerListBytes(zs[i + 1..]));
        done := done + b;
      }
      assert done + [] == done;
      return Ok(());
    }

    method EncodeEntry(e: PackEntry) returns (r: Result<()>)
      modifies this
      ensures Wrote(old(bytes), EntryBytes(e), r)
    {
      hide ToLE, StrBytes, MetaBytes, PlacementBytes, InnerListBytes;
      var _ :- PushStr(e.path);
      Extend([KindByte(e.kind)]);
      var _ :- EncodeMeta(e.meta);
      ghost var head := bytes;
      match e.kind {
        case File =>
          var _ :- PushPlacement(e.codeRanges, e.solidOff, e.solidSize);
        case Link =>
          var _ :- PushStr(OrEmpty(e.linkTarget));
        case Dir =>
          assert head == head + [];
        case Zip =>
          if |e.zipInners| > U16_MAX {
            return Err(TooLarge);
          }
          Extend(ToLE(2, |e.zipInners|));
          var _ :- EncodeInners(e.zipInners);
      }
      assert bytes == head + EntryBody(e).value;
      return Ok(());
    }

    method EncodeEntries(es: seq<PackEntry>) returns (r: Result<()>)
      modifies this
      ensures Wrote(old(bytes), EntryListBytes(es), r)
    {
      hide EntryBytes;
      ghost var was, done := bytes, [];
      assert es[0..] == es;
      PrependNothing(EntryListBytes(es));
      for i := 0 to |es|
        invariant bytes == was + done && EntryListBytes(es) == Prepend(done, EntryListBytes(es[i..]))
      {
        assert es[i..][1..] == es[i + 1..];
        var step := EncodeEntry(es[i]);
        if step.Err? {
          return step;
        }
        ghost var b := EntryBytes(es[i]).value;
        PrependAssociative(done, b, EntryListBytes(es[i + 1..]));
        assert EntryListBytes(es[i..]) == Prepend(b, EntryListBytes(es[i + 1..]));
        done := done + b;
      }
      assert done + [] == done;
      return Ok(());
    }
  }

  method EncodeContainer(es: seq<PackEntry>, solid: seq<byte>) returns (r: Result<seq<byte>>)
    ensures r == ContainerBytes(es, solid)
  {
    if |es| > U32_MAX {
      return Err(TooLarge);
    }
    hide ToLE, EntryListBytes;
    var out := new Output();
    out.Extend(MAGIC2);
    out.Extend(ToLE(4, 0));
    out.Extend(ToLE(4, |es|));
    var _ :- out.EncodeEntries(es);
    out.Extend(ToLE(8, |solid|));
    out.Extend(solid);
    assert [] + MAGIC2 == MAGIC2;
    return Ok(out.bytes);
  }

  /** A reading position that only moves forward over bytes that never change. */
  class Cursor {
    const data: seq<byte>
    var pos: nat

    constructor (data: seq<byte>)
      ensures this.data == data && pos == 0
    {
      this.data := data;
      pos := 0;
    }

    ghost predicate Valid()
      reads this
    {
      pos <= |data|
    }

    ghost function Rest(): seq<byte>
      requires Valid()
      reads this
    {
      data[pos..]
    }

    /** The method did what the reader function says, and stands where the reader left off. */
    ghost predicate Did<T>(spec: Parsed<T>, r: Result<T>)
      reads this
    {
      Valid() &&
      match spec
      case Ok(p) => r == Ok(p.0) && Rest() == p.1
      case Err(e) => r == Err(e)
    }

    method Next(n: nat) returns (r: Result<seq<byte>>)
      requires Valid()
      modifies this
      ensures Did(Take(old(Rest()), n), r)
    {
      var end := pos + n;
      if end > |data| {
        return Err(BadArchive);
      }
      var slice := data[pos..end];
      assert slice == Rest()[..n] && data[end..] == Rest()[n..];
      pos := end;
      return Ok(slice);
    }

    method U8() returns (r: Result<byte>)
      requires Valid()
      modifies this
      ensures Did(ReadU8(old(Rest())), r)
    {
      var b :- Next(1);
      return Ok(b[0]);
    }

    method U16() returns (r: Result<u16>)
      requires Valid()
      modifies this
      ensures Did(ReadU16(old(Rest())), r)
    {
      var b :- Next(2);
      assert Pow256(2) == 0x1_0000;
      return Ok(FromLE(b));
    }

    method U32() returns (r: Result<u32>)
      requires Valid()
      modifies this
      ensures Did(ReadU32(old(Rest())), r)
    {
      var b :- Next(4);
      assert Pow256(4) == 0x1_0000_0000;
      return Ok(FromLE(b));
    }

    method U64() returns (r: Result<u64>)
      requires Valid()
      modifies this
      ensures Did(ReadU64(old(Rest())), r)
    {
      var b :- Next(8);
      assert Pow256(8) == 0x1_0000_0000_0000_0000;
      return Ok(FromLE(b));
    }

    method Str(utf8: Utf8) returns (r: Result<Text>)
      requires Valid()
      modifies this
      ensures Did(ReadStr(utf8, old(Rest())), r)
    {
      var len :- U16();
      var b :- Next(len);
      if !utf8(b) {
        return Err(BadArchive);
      }
      return Ok(b);
    }

    method ZTime() returns (r: Result<ZipTime>)
      requires Valid()
      modifies this
      ensures Did(ReadZTime(old(Rest())), r)
    {
      ghost var s := Rest();
      var year :- U16();
      FiveBytes(Rest());
      var month :- U8();
      var day :- U8();
      var hour :- U8();
      var minute :- U8();
      var second :- U8();
      return Ok(ZipTime(year, month, day, hour, minute, second));
    }

    method Ranges(n: nat) returns (r: Result<seq<CodeRange>>)
      requires Valid()
      modifies this
      ensures Did(ReadRangeList(old(Rest()), n), r)
    {
      hide ReadU64, ReadU8;
      var ranges: seq<CodeRange> := [];
      ghost var all := ReadRangeList(Rest(), n);
      ContinueNothing(all);
      for i := 0 to n
        invariant Valid() && all == Continue(ranges, ReadRangeList(Rest(), n - i))
      {
        ghost var rest := ReadRangeList(Rest(), n - i);
        var off :- U64();
        var size :- U64();
        var arch :- U8();
        if arch != ARCH_ARM64 && arch != ARCH_X86 {
          return Err(BadArchive);
        }
        var range := CodeRange(off, size, arch);
        ContinueTwice(ranges, range, ReadRangeList(Rest(), n - i - 1));
        ranges := ranges + [range];
      }
      assert ranges + [] == ranges;
      return Ok(ranges);
    }

    method PlacementOf() returns (r: Result<Placement>)
      requires Valid()
      modifies this
      ensures Did(ReadPlacement(old(Rest())), r)
    {
      hide ReadU16, ReadU64, ReadRangeList;
      var n :- U16();
      if n > 1_000_000 {
        return Err(BadArchive);
      }
      var ranges :- Ranges(n);
      var off :- U64();
      var size :- U64();
      return Ok(Placement(ranges, off, size));
    }

    method ZipInnerOf(utf8: Utf8) returns (r: Result<ZipInner>)
      requires Valid()
      modifies this
      ensures Did(ReadInner(utf8, old(Rest())), r)
    {
      hide ReadU8, ReadU32, ReadStr, ReadZTime, ReadPlacement;
      var kind :- U8();
      if kind != ZIP_FILE && kind != ZIP_DIR && kind != ZIP_LINK {
        return Err(BadArchive);
      }
      var path :- Str(utf8);
      if path == [] {
        return Err(BadArchive);
      }
      if kind == ZIP_FILE {
        var method_ :- U8();
        if method_ != ZIP_STORED && method_ != ZIP_DEFLATED {
          return Err(BadArchive);
        }
        var mode :- U32();
        var mtime :- ZTime();
        var crc :- U32();
        var p :- PlacementOf();
        return Ok(ZipInner(kind, path, method_, mode, mtime, crc, None, p.ranges, p.off, p.size));
      } else if kind == ZIP_LINK {
        var target :- Str(utf8);
        var mode :- U32();
        var mtime :- ZTime();
        return Ok(ZipInner(kind, path, ZIP_STORED, mode, mtime, 0, Some(target), [], 0, 0));
      } else {
        var mode :- U32();
        var mtime :- ZTime();
        return Ok(ZipInner(kind, path, ZIP_STORED, mode, mtime, 0, None, [], 0, 0));
      }
    }

    method InnersOf(utf8: Utf8, n: nat) returns (r: Result<seq<ZipInner>>)
      requires Valid()
      modifies this
      ensures Did(ReadInnerList(utf8, old(Rest()), n), r)
    {
      hide ReadInner;
      var inners: seq<ZipInner> := [];
      ghost var all := ReadInnerList(utf8, Rest(), n);
      ContinueNothing(all);
      for i := 0 to n
        invariant Valid() && all == Continue(inners, ReadInnerList(utf8, Rest(), n - i))
      {
        var z :- ZipInnerOf(utf8);
        ContinueTwice(inners, z, ReadInnerList(utf8, Rest(), n - i - 1));
        inners := inners + [z];
      }
      assert inners + [] == inners;
      return Ok(inners);
    }

    method MetaOf(utf8: Utf8) returns (r: Result<FileMeta>)
      requires Valid()
      modifies this
      ensures Did(ReadMeta(utf8, old(Rest())), r)
    {
      hide ReadU8, ReadU32, ReadStr;
      var flags :- U8();
      if flags >= 8 {
        return Err(BadArchive);
      }
      var meta := FileMeta(None, None, None, None);
      if flags % 2 == 1 {
        var mode :- U32();
        meta := meta.(mode := Some(mode % 0x1000));
      }
      if (flags / 2) % 2 == 1 {
        var uid :- U32();
        var gid :- U32();
        meta := meta.(uid := OwnerOf(uid), gid := OwnerOf(gid));
      }
      if flags / 4 == 1 {
        var context :- Str(utf8);
        meta := meta.(context := Some(context));
      }
      return Ok(meta);
    }

    method EntryOf(utf8: Utf8) returns (r: Result<PackEntry>)
      requires Valid()
      modifies this
      ensures Did(ReadEntry(utf8, old(Rest())), r)
    {
      hide ReadU8, ReadU16, ReadStr, ReadMeta, ReadPlacement, ReadInnerList;
      var path :- Str(utf8);
      if path == [] {
        return Err(BadArchive);
      }
      var k :- U8();
      var kind :- KindOf(k);
      var meta :- MetaOf(utf8);
      match kind {
        case File =>
          var p :- PlacementOf();
          return Ok(PackEntry(path, kind, meta, None, p.ranges, p.off, p.size, []));
        case Link =>
          var target :- Str(utf8);
          return Ok(PackEntry(path, kind, meta, Some(target), [], 0, 0, []));
        case Dir =>
          return Ok(PackEntry(path, kind, meta, None, [], 0, 0, []));
        case Zip =>
          var n :- U16();
          if n > 1_000_000 {
            return Err(BadArchive);
          }
          var inners :- InnersOf(utf8, n);
          return Ok(PackEntry(path, kind, meta, None, [], 0, 0, inners));
      }
    }

    method EntriesOf(utf8: Utf8, n: nat) returns (r: Result<seq<PackEntry>>)
      requires Valid()
      modifies this
      ensures Did(ReadEntryList(utf8, old(Rest()), n), r)
    {
      hide ReadEntry;
      var entries: seq<PackEntry> := [];
      ghost var all := ReadEntryList(utf8, Rest(), n);
      ContinueNothing(all);
      for i := 0 to n
        invariant Valid() && all == Continue(entries, ReadEntryList(utf8, Rest(), n - i))
      {
        var e :- EntryOf(utf8);
        ContinueTwice(entries, e, ReadEntryList(utf8, Rest(), n - i - 1));
        entries := entries + [e];
      }
      assert entries + [] == entries;
      return Ok(entries);
    }

    method TableOf(utf8: Utf8) returns (r: Result<seq<PackEntry>>)
      requires Valid()
      modifies this
      ensures Did(ReadTable(utf8, old(Rest())), r)
    {
      hide Take, ReadU32, ReadEntryList;
      var magic :- Next(8);
      if magic != MAGIC2 {
        return Err(BadArchive);
      }
      var _ :- U32();
      var count :- U32();
      if count == 0 || count > MAX_ENTRIES {
        return Err(BadArchive);
      }
      r := EntriesOf(utf8, count);
    }
  }

  lemma FiveBytes(s: seq<byte>)
    ensures |s| >= 5 ==> s[1..][1..][1..][1..][1..] == s[5..]
  {
  }

  /** The same container, with its payload as a range of the image. */
  ghost predicate Located(data: seq<byte>, spec: Result<Container>, r: Result<(seq<PackEntry>, nat, nat)>) {
    match spec
    case Ok(c) => r.Ok? && r.value.0 == c.entries && r.value.1 <= r.value.2 == |data| && data[r.value.1..r.value.2] == c.solid
    case Err(e) => r == Err(e)
  }

  method ParseImage(utf8: Utf8, data: seq<byte>) returns (r: Result<(seq<PackEntry>, nat, nat)>)
    ensures Located(data, ParseContainer(utf8, data), r)
  {
    hide ReadTable, ReadU64;
    var cur := new Cursor(data);
    assert cur.Rest() == data;
    var entries :- cur.TableOf(utf8);
    var solidLen :- cur.U64();
    var start: nat, solidEnd: nat := cur.pos, cur.pos + solidLen;
    assert cur.Rest() == data[start..|data|];
    if solidEnd != |data| {
      return Err(BadArchive);
    }
    return Ok((entries, start, solidEnd));
  }
}

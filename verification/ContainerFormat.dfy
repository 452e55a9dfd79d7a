/** The UCOMP02 container as data, what is written and what is read: src/pack.rs. */
module ContainerFormat {
  import opened Bytes

  /** Strings are byte strings; `utf8` is the test `String::from_utf8` applies to what was read. */
  type Text = seq<byte>
  type Utf8 = Text -> bool

  datatype EntryKind = File | Dir | Link | Zip

  datatype FileMeta = FileMeta(mode: Option<u32>, uid: Option<u32>, gid: Option<u32>, context: Option<Text>)

  datatype CodeRange = CodeRange(off: u64, size: u64, arch: byte)

  datatype ZipTime = ZipTime(year: u16, month: byte, day: byte, hour: byte, minute: byte, second: byte)

  datatype ZipInner = ZipInner(kind: byte, path: Text, method_: byte, unixMode: u32, mtime: ZipTime, crc: u32,
                               linkTarget: Option<Text>, codeRanges: seq<CodeRange>, solidOff: u64, solidSize: u64)

  datatype PackEntry = PackEntry(path: Text, kind: EntryKind, meta: FileMeta, linkTarget: Option<Text>,
                                 codeRanges: seq<CodeRange>, solidOff: u64, solidSize: u64, zipInners: seq<ZipInner>)

  const MAGIC2: seq<byte> := [0x55, 0x43, 0x4F, 0x4D, 0x50, 0x30, 0x32, 0x00]
  const TYPE_FILE: byte := 0
  const TYPE_DIR: byte := 1
  const TYPE_LINK: byte := 2
  const TYPE_ZIP: byte := 3
  const ZIP_FILE: byte := 0
  const ZIP_DIR: byte := 1
  const ZIP_LINK: byte := 2
  const ZIP_STORED: byte := 0
  const ZIP_DEFLATED: byte := 8
  const ARCH_ARM64: byte := 1
  const ARCH_X86: byte := 2
  const MAX_ENTRIES := 10_000_000

  // ---- Writing ----

  function StrBytes(s: Text): Result<seq<byte>> {
    if |s| > U16_MAX then Err(TooLarge) else Ok(ToLE(2, |s|) + s)
  }

  function RangeBytes(r: CodeRange): seq<byte> {
    ToLE(8, r.off) + ToLE(8, r.size) + [r.arch]
  }

  function RangeListBytes(rs: seq<CodeRange>): seq<byte> {
    if rs == [] then [] else RangeBytes(rs[0]) + RangeListBytes(rs[1..])
  }

  /** The range count, the ranges, and where the file lies in the solid blob. */
  function PlacementBytes(rs: seq<CodeRange>, off: u64, size: u64): Result<seq<byte>> {
    if |rs| > U16_MAX then Err(TooLarge)
    else Ok(ToLE(2, |rs|) + RangeListBytes(rs) + ToLE(8, off) + ToLE(8, size))
  }

  function ZTimeBytes(t: ZipTime): seq<byte> {
    ToLE(2, t.year) + [t.month, t.day, t.hour, t.minute, t.second]
  }

  function OrEmpty(t: Option<Text>): Text {
    if t.Some? then t.value else []
  }

  /** What follows the path of an inner entry. Unknown kinds are written like directories. */
  function InnerBody(z: ZipInner): Result<seq<byte>> {
    if z.kind == ZIP_FILE then
      if z.method_ != ZIP_STORED && z.method_ != ZIP_DEFLATED then Err(TooLarge)
      else
        var placement :- PlacementBytes(z.codeRanges, z.solidOff, z.solidSize);
        Ok([z.method_] + ToLE(4, z.unixMode) + ZTimeBytes(z.mtime) + ToLE(4, z.crc) + placement)
    else if z.kind == ZIP_LINK then
      var target :- StrBytes(OrEmpty(z.linkTarget));
      Ok(target + ToLE(4, z.unixMode) + ZTimeBytes(z.mtime))
    else Ok(ToLE(4, z.unixMode) + ZTimeBytes(z.mtime))
  }

  function InnerBytes(z: ZipInner): Result<seq<byte>> {
    var path :- StrBytes(z.path);
    var body :- InnerBody(z);
    Ok([z.kind] + path + body)
  }

  function InnerListBytes(zs: seq<ZipInner>): Result<seq<byte>> {
    if zs == [] then Ok([])
    else
      var first :- InnerBytes(zs[0]);
      var rest :- InnerListBytes(zs[1..]);
      Ok(first + rest)
  }

  function KindByte(k: EntryKind): byte {
    match k
    case File => TYPE_FILE
    case Dir => TYPE_DIR
    case Link => TYPE_LINK
    case Zip => TYPE_ZIP
  }

  predicate HasOwner(m: FileMeta) {
    m.uid.Some? || m.gid.Some?
  }

  function MetaFlags(m: FileMeta): byte {
    (if m.mode.Some? then 1 else 0) + (if HasOwner(m) then 2 else 0) + (if m.context.Some? then 4 else 0)
  }

  function OrMax(v: Option<u32>): u32 {
    if v.Some? then v.value else U32_MAX
  }

  function MetaBytes(m: FileMeta): Result<seq<byte>> {
    var context :- if m.context.Some? then StrBytes(m.context.value) else Ok([]);
    Ok([MetaFlags(m)] + (if m.mode.Some? then ToLE(4, m.mode.value) else [])
       + (if HasOwner(m) then ToLE(4, OrMax(m.uid)) + ToLE(4, OrMax(m.gid)) else []) + context)
  }

  function EntryBody(e: PackEntry): Result<seq<byte>> {
    match e.kind
    case File => PlacementBytes(e.codeRanges, e.solidOff, e.solidSize)
    case Link => StrBytes(OrEmpty(e.linkTarget))
    case Dir => Ok([])
    case Zip =>
      if |e.zipInners| > U16_MAX then Err(TooLarge)
      else
        var inners :- InnerListBytes(e.zipInners);
        Ok(ToLE(2, |e.zipInners|) + inners)
  }

  function EntryBytes(e: PackEntry): Result<seq<byte>> {
    var path :- StrBytes(e.path);
    var meta :- MetaBytes(e.meta);
    var body :- EntryBody(e);
    Ok(path + [KindByte(e.kind)] + meta + body)
  }

  function EntryListBytes(es: seq<PackEntry>): Result<seq<byte>> {
    if es == [] then Ok([])
    else
      var first :- EntryBytes(es[0]);
      var rest :- EntryListBytes(es[1..]);
      Ok(first + rest)
  }

  function ContainerBytes(es: seq<PackEntry>, solid: seq<byte>): Result<seq<byte>> {
    if |es| > U32_MAX then Err(TooLarge)
    else
      var entries :- EntryListBytes(es);
      Ok(MAGIC2 + ToLE(4, 0) + ToLE(4, |es|) + entries + ToLE(8, |solid|) + solid)
  }

  // ---- Reading: every reader takes the unread bytes and returns a value and what is left ----

  type Parsed<T> = Result<(T, seq<byte>)>

  function Take(s: seq<byte>, n: nat): Parsed<seq<byte>> {
    if n > |s| then Err(BadArchive) else Ok((s[..n], s[n..]))
  }

  function ReadU8(s: seq<byte>): Parsed<byte> {
    var (b, rest) :- Take(s, 1);
    Ok((b[0], rest))
  }

  function ReadU16(s: seq<byte>): Parsed<u16> {
    var (b, rest) :- Take(s, 2);
    assert Pow256(2) == 0x1_0000;
    Ok((FromLE(b), rest))
  }

  function ReadU32(s: seq<byte>): Parsed<u32> {
    var (b, rest) :- Take(s, 4);
    assert Pow256(4) == 0x1_0000_0000;
    Ok((FromLE(b), rest))
  }

  function ReadU64(s: seq<byte>): Parsed<u64> {
    var (b, rest) :- Take(s, 8);
    assert Pow256(8) == 0x1_0000_0000_0000_0000;
    Ok((FromLE(b), rest))
  }

  function ReadStr(utf8: Utf8, s: seq<byte>): Parsed<Text> {
    var (len, s1) :- ReadU16(s);
    var (b, s2) :- Take(s1, len);
    if utf8(b) then Ok((b, s2)) else Err(BadArchive)
  }

  function ReadZTime(s: seq<byte>): Parsed<ZipTime> {
    var (year, s1) :- ReadU16(s);
    var (b, s2) :- Take(s1, 5);
    Ok((ZipTime(year, b[0], b[1], b[2], b[3], b[4]), s2))
  }

  function ReadRange(s: seq<byte>): Parsed<CodeRange> {
    var (off, s1) :- ReadU64(s);
    var (size, s2) :- ReadU64(s1);
    var (arch, s3) :- ReadU8(s2);
    if arch != ARCH_ARM64 && arch != ARCH_X86 then Err(BadArchive) else Ok((CodeRange(off, size, arch), s3))
  }

  function ReadRangeList(s: seq<byte>, n: nat): Parsed<seq<CodeRange>>
    decreases n
  {
    if n == 0 then Ok(([], s))
    else
      var (r, s1) :- ReadRange(s);
      var (rs, s2) :- ReadRangeList(s1, n - 1);
      Ok(([r] + rs, s2))
  }

  datatype Placement = Placement(ranges: seq<CodeRange>, off: u64, size: u64)

  function ReadPlacement(s: seq<byte>): Parsed<Placement> {
    var (n, s1) :- ReadU16(s);
    var (ranges, s2) :- ReadRangeList(s1, n);
    var (off, s3) :- ReadU64(s2);
    var (size, s4) :- ReadU64(s3);
    Ok((Placement(ranges, off, size), s4))
  }

  /** What follows the path of an inner entry of a known kind. */
  function ReadInnerBody(utf8: Utf8, s: seq<byte>, kind: byte, path: Text): Parsed<ZipInner> {
    if kind == ZIP_FILE then
      var (method_, s1) :- ReadU8(s);
      if method_ != ZIP_STORED && method_ != ZIP_DEFLATED then Err(BadArchive)
      else
        var (mode, s2) :- ReadU32(s1);
        var (mtime, s3) :- ReadZTime(s2);
        var (crc, s4) :- ReadU32(s3);
        var (p, s5) :- ReadPlacement(s4);
        Ok((ZipInner(kind, path, method_, mode, mtime, crc, None, p.ranges, p.off, p.size), s5))
    else if kind == ZIP_LINK then
      var (target, s1) :- ReadStr(utf8, s);
      var (mode, s2) :- ReadU32(s1);
      var (mtime, s3) :- ReadZTime(s2);
      Ok((ZipInner(kind, path, ZIP_STORED, mode, mtime, 0, Some(target), [], 0, 0), s3))
    else
      var (mode, s1) :- ReadU32(s);
      var (mtime, s2) :- ReadZTime(s1);
      Ok((ZipInner(kind, path, ZIP_STORED, mode, mtime, 0, None, [], 0, 0), s2))
  }

  function ReadInner(utf8: Utf8, s: seq<byte>): Parsed<ZipInner> {
    var (kind, s1) :- ReadU8(s);
    if kind != ZIP_FILE && kind != ZIP_DIR && kind != ZIP_LINK then Err(BadArchive)
    else
      var (path, s2) :- ReadStr(utf8, s1);
      if path == [] then Err(BadArchive) else ReadInnerBody(utf8, s2, kind, path)
  }

  function ReadInnerList(utf8: Utf8, s: seq<byte>, n: nat): Parsed<seq<ZipInner>>
    decreases n
  {
    if n == 0 then Ok(([], s))
    else
      var (z, s1) :- ReadInner(utf8, s);
      var (zs, s2) :- ReadInnerList(utf8, s1, n - 1);
      Ok(([z] + zs, s2))
  }

  function OwnerOf(v: u32): Option<u32> {
    if v == U32_MAX then None else Some(v)
  }

  function ReadMode(s: seq<byte>, present: bool): Parsed<Option<u32>> {
    if !present then Ok((None, s))
    else
      var (mode, s1) :- ReadU32(s);
      Ok((Some(mode % 0x1000), s1))
  }

  function ReadOwner(s: seq<byte>, present: bool): Parsed<(Option<u32>, Option<u32>)> {
    if !present then Ok(((None, None), s))
    else
      var (uid, s1) :- ReadU32(s);
      var (gid, s2) :- ReadU32(s1);
      Ok(((OwnerOf(uid), OwnerOf(gid)), s2))
  }

  function ReadContext(utf8: Utf8, s: seq<byte>, present: bool): Parsed<Option<Text>> {
    if !present then Ok((None, s))
    else
      var (context, s1) :- ReadStr(utf8, s);
      Ok((Some(context), s1))
  }

  function ReadMeta(utf8: Utf8, s: seq<byte>): Parsed<FileMeta> {
    var (flags, s1) :- ReadU8(s);
    if flags >= 8 then Err(BadArchive)
    else
      var (mode, s2) :- ReadMode(s1, flags % 2 == 1);
      var (owner, s3) :- ReadOwner(s2, (flags / 2) % 2 == 1);
      var (context, s4) :- ReadContext(utf8, s3, flags / 4 == 1);
      Ok((FileMeta(mode, owner.0, owner.1, context), s4))
  }

  function KindOf(b: byte): Result<EntryKind> {
    if b == TYPE_FILE then Ok(File)
    else if b == TYPE_DIR then Ok(Dir)
    else if b == TYPE_LINK then Ok(Link)
    else if b == TYPE_ZIP then Ok(Zip)
    else Err(BadArchive)
  }

  function ReadEntryBody(utf8: Utf8, s: seq<byte>, path: Text, kind: EntryKind, meta: FileMeta): Parsed<PackEntry> {
    match kind
    case File =>
      var (p, s1) :- ReadPlacement(s);
      Ok((PackEntry(path, kind, meta, None, p.ranges, p.off, p.size, []), s1))
    case Link =>
      var (target, s1) :- ReadStr(utf8, s);
      Ok((PackEntry(path, kind, meta, Some(target), [], 0, 0, []), s1))
    case Dir => Ok((PackEntry(path, kind, meta, None, [], 0, 0, []), s))
    case Zip =>
      var (n, s1) :- ReadU16(s);
      var (inners, s2) :- ReadInnerList(utf8, s1, n);
      Ok((PackEntry(path, kind, meta, None, [], 0, 0, inners), s2))
  }

  function ReadEntry(utf8: Utf8, s: seq<byte>): Parsed<PackEntry> {
    var (path, s1) :- ReadStr(utf8, s);
    if path == [] then Err(BadArchive)
    else
      var (k, s2) :- ReadU8(s1);
      var kind :- KindOf(k);
      var (meta, s3) :- ReadMeta(utf8, s2);
      ReadEntryBody(utf8, s3, path, kind, meta)
  }

  function ReadEntryList(utf8: Utf8, s: seq<byte>, n: nat): Parsed<seq<PackEntry>>
    decreases n
  {
    if n == 0 then Ok(([], s))
    else
      var (e, s1) :- ReadEntry(utf8, s);
      var (es, s2) :- ReadEntryList(utf8, s1, n - 1);
      Ok(([e] + es, s2))
  }

  datatype Container = Container(entries: seq<PackEntry>, solid: seq<byte>)

  /** Magic, unused flags, and the entry table. */
  function ReadTable(utf8: Utf8, data: seq<byte>): Parsed<seq<PackEntry>> {
    var (magic, s1) :- Take(data, 8);
    if magic != MAGIC2 then Err(BadArchive)
    else
      var (_, s2) :- ReadU32(s1);
      var (count, s3) :- ReadU32(s2);
      if count == 0 || count > MAX_ENTRIES then Err(BadArchive) else ReadEntryList(utf8, s3, count)
  }

  /** The solid payload is everything after the length field, and its length must say so. */
  function ParseContainer(utf8: Utf8, data: seq<byte>): Result<Container> {
    var (entries, s4) :- ReadTable(utf8, data);
    var (solidLen, solid) :- ReadU64(s4);
    if solidLen != |solid| then Err(BadArchive) else Ok(Container(entries, solid))
  }
}

/** A file that the code does not restore: an ELF file whose two code sections share four bytes. */
module OverlappingSections {
  import opened Bytes
  import opened Sorting
  import opened Normalize
  import opened Elf
  import opened Transforms
  import opened CodeSections
  import opened Lzma
  import opened Decompress
  import opened ContainerFormat
  import opened SolidLayout
  import opened Unpacking
  import opened Packing
  import opened Ucomp01
  import opened EncoderLaws
  import opened Ucomp02
  import opened Ucomp02RoundTrip

  // ---- The file ----

  /** A 64-bit x86 executable with two section records right after the header. */
  function Header(): (h: seq<byte>)
    ensures |h| == EHDR_SIZE
  {
    ELF_MAGIC + [2] + Zeros(11) + ToLE(2, 2) + ToLE(2, EM_X86_64) + Zeros(20) + ToLE(8, 64) + Zeros(10) + ToLE(2, 64) + ToLE(2, 2)
    + Zeros(2)
  }

  /** A PROGBITS record with the execute flag. */
  function CodeRecord(off: nat, size: nat): (r: seq<byte>)
    ensures |r| == SHDR_SIZE
  {
    Zeros(4) + ToLE(4, SHT_PROGBITS) + ToLE(8, 4) + Zeros(8) + ToLE(8, off) + ToLE(8, size) + Zeros(24)
  }

  /** The first call's operand holds the opcode of the second. */
  function SharedCode(): seq<byte> {
    [0xE8, 0xE8, 0, 0, 0, 0xFF]
  }

  function OverlappingFile(): (f: seq<byte>)
    ensures |f| == 198
  {
    Header() + CodeRecord(192, 5) + CodeRecord(193, 5) + SharedCode()
  }

  // ---- How it parses ----

  lemma StoredField(whole: seq<byte>, front: seq<byte>, n: nat, v: nat, back: seq<byte>)
    requires whole == front + ToLE(n, v) + back && v < Pow256(n)
    ensures |front| + n <= |whole| && Field(whole, |front|, n) == v
  {
    hide ToLE, FromLE, Pow256;
    Middle(front, ToLE(n, v), back);
    FromLEToLE(n, v);
    SmallRemainder(v, Pow256(n));
  }

  lemma Middle(front: seq<byte>, mid: seq<byte>, back: seq<byte>)
    ensures (front + mid + back)[|front|..|front| + |mid|] == mid
  {
  }

  lemma SmallRemainder(v: nat, m: nat)
    requires v < m
    ensures v % m == v
  {
  }

  lemma Widths()
    ensures Pow256(2) == 0x1_0000 && Pow256(4) == 0x1_0000_0000 && Pow256(8) == 0x1_0000_0000_0000_0000
  {
  }

  lemma HeaderSays()
    ensures var h := Header();
            && h[0..4] == ELF_MAGIC && h[4] == 2 && U16(h, 16) == 2 && U16(h, 18) == EM_X86_64
            && U64(h, 40) == 64 && U16(h, 58) == 64 && U16(h, 60) == 2
  {
    hide ToLE, Zeros, Field;
    Widths();
    var h := Header();
    var f16 := ELF_MAGIC + [2] + Zeros(11);
    var f18 := f16 + ToLE(2, 2);
    var f40 := f18 + ToLE(2, EM_X86_64) + Zeros(20);
    var f58 := f40 + ToLE(8, 64) + Zeros(10);
    var f60 := f58 + ToLE(2, 64);
    StoredField(h, f60, 2, 2, Zeros(2));
    var b58 := ToLE(2, 2) + Zeros(2);
    assert h == f58 + ToLE(2, 64) + b58;
    StoredField(h, f58, 2, 64, b58);
    var b40 := Zeros(10) + ToLE(2, 64) + b58;
    assert h == f40 + ToLE(8, 64) + b40;
    StoredField(h, f40, 8, 64, b40);
    var b18 := Zeros(20) + ToLE(8, 64) + b40;
    assert h == f18 + ToLE(2, EM_X86_64) + b18;
    StoredField(h, f18, 2, EM_X86_64, b18);
    var b16 := ToLE(2, EM_X86_64) + b18;
    assert h == f16 + ToLE(2, 2) + b16;
    StoredField(h, f16, 2, 2, b16);
  }

  lemma RecordVisited(off: nat, size: nat, len: nat)
    requires 0 < size && off + size <= len <= U64_MAX
    ensures VisitSection(CodeRecord(off, size), len) == Take(Section(off, size, true))
  {
    hide ToLE, Zeros, Field;
    Widths();
    var r := CodeRecord(off, size);
    var f8 := Zeros(4) + ToLE(4, SHT_PROGBITS);
    var f24 := f8 + ToLE(8, 4) + Zeros(8);
    var f32 := f24 + ToLE(8, off);
    StoredField(r, f32, 8, size, Zeros(24));
    var b24 := ToLE(8, size) + Zeros(24);
    assert r == f24 + ToLE(8, off) + b24;
    StoredField(r, f24, 8, off, b24);
    var b8 := Zeros(8) + ToLE(8, off) + b24;
    assert r == f8 + ToLE(8, 4) + b8;
    StoredField(r, f8, 8, 4, b8);
    var b4 := ToLE(8, 4) + b8;
    assert r == Zeros(4) + ToLE(4, SHT_PROGBITS) + b4;
    StoredField(r, Zeros(4), 4, SHT_PROGBITS, b4);
  }

  function SharedSections(): seq<Section> {
    [Section(192, 5, true), Section(193, 5, true)]
  }

  lemma FileHeader()
    ensures var d := OverlappingFile();
            && d[0..4] == ELF_MAGIC && d[4] == 2 && U16(d, 16) == 2 && U16(d, 18) == EM_X86_64
            && ShOff(d) == 64 && U16(d, 58) == 64 && ShNum(d) == 2
  {
    hide Header, CodeRecord, Field;
    var d, h := OverlappingFile(), Header();
    HeaderSays();
    assert d[..EHDR_SIZE] == h;
    SameField(d, h, 0, 4);
    SameField(d, h, 16, 2);
    SameField(d, h, 18, 2);
    SameField(d, h, 40, 8);
    SameField(d, h, 58, 2);
    SameField(d, h, 60, 2);
    assert d[4] == h[4];
  }

  lemma SameField(d: seq<byte>, h: seq<byte>, off: nat, n: nat)
    requires |h| <= |d| && d[..|h|] == h && off + n <= |h|
    ensures d[off..off + n] == h[off..off + n] && Field(d, off, n) == Field(h, off, n)
  {
    forall k | off <= k < off + n ensures d[k] == h[k] {
      assert d[k] == d[..|h|][k];
    }
    assert d[off..off + n] == h[off..off + n];
  }

  lemma RecordPlaces()
    ensures var d := OverlappingFile();
            && Elf.RecordBase(d, 0) == 64 && Elf.RecordBase(d, 1) == 128
            && d[64..128] == CodeRecord(192, 5) && d[128..192] == CodeRecord(193, 5)
  {
    hide Header, CodeRecord, Field;
    var d := OverlappingFile();
    FileHeader();
    Middle(Header(), CodeRecord(192, 5), CodeRecord(193, 5) + SharedCode());
    assert d == Header() + CodeRecord(192, 5) + (CodeRecord(193, 5) + SharedCode());
    Middle(Header() + CodeRecord(192, 5), CodeRecord(193, 5), SharedCode());
  }

  lemma FileRecords()
    ensures var d := OverlappingFile(); Collect(d, 2) == Some(SharedSections())
  {
    hide OverlappingFile, CodeRecord, VisitSection, Elf.RecordBase;
    var d := OverlappingFile();
    RecordPlaces();
    RecordVisited(192, 5, 198);
    RecordVisited(193, 5, 198);
    assert VisitRecord(d, 0) == Take(Section(192, 5, true));
    assert VisitRecord(d, 1) == Take(Section(193, 5, true));
    assert Collect(d, 0) == Some([]);
    assert Collect(d, 1) == Append(Collect(d, 0), VisitRecord(d, 0));
    assert [] + [Section(192, 5, true)] == [Section(192, 5, true)];
    assert Collect(d, 2) == Append(Collect(d, 1), VisitRecord(d, 1));
    assert [Section(192, 5, true)] + [Section(193, 5, true)] == SharedSections();
  }

  /** The shared code lies behind both records. */
  lemma CodeIsClear()
    ensures CodeClear(OverlappingFile(), SharedSections())
  {
    hide OverlappingFile, Elf.RecordBase, ShNum;
    RecordPlaces();
    assert ShNum(OverlappingFile()) == 2 by { FileHeader(); }
  }

  /** The parser finds both sections. */
  lemma Parsed()
    ensures Parse(OverlappingFile()) == Some(ElfInfo(SharedSections(), X86, 2))
    ensures ParseForPack(OverlappingFile()) == Parse(OverlappingFile())
  {
    hide OverlappingFile, Collect, Field, ToLE;
    FileHeader();
    FileRecords();
    var a, b := Section(192, 5, true), Section(193, 5, true);
    assert [a, b][1..] == [b] && [b][1..] == [];
    assert StableSort([], ByOffset()) == [] && Insert(b, [], ByOffset()) == [b];
    assert StableSort([b], ByOffset()) == [b];
    assert StableSort([a, b], ByOffset()) == Insert(a, [b], ByOffset()) == [a, b];
  }

  // ---- What happens to it ----

  lemma SharedRanges()
    ensures CodeRanges(SharedSections(), X86Branch) == [Range(192, 5, X86Branch), Range(193, 5, X86Branch)]
  {
    assert SharedSections()[1..] == [Section(193, 5, true)] && SharedSections()[1..][1..] == [];
  }

  /** Two ranges inside a window change only the window. */
  lemma TwoInWindow(s: seq<byte>, lo: nat, hi: nat, x: seq<byte>, a: Range, b: Range, dir: Direction)
    requires lo <= hi <= |s| && |x| == hi - lo && a.End() <= |x| && b.End() <= |x|
    ensures |Splice(s, lo, hi, x)| == |s|
    ensures ApplyAll(Splice(s, lo, hi, x), [Range(lo + a.off, a.size, a.xf), Range(lo + b.off, b.size, b.xf)], dir)
            == Splice(s, lo, hi, ApplyAll(x, [a, b], dir))
  {
    hide ApplyOne, Splice, ApplyAll;
    WindowRange(s, lo, hi, x, a, dir);
    WindowRange(s, lo, hi, ApplyOne(x, a, dir), b, dir);
    TwoRanges(x, a, b, dir);
    TwoRanges(Splice(s, lo, hi, x), Range(lo + a.off, a.size, a.xf), Range(lo + b.off, b.size, b.xf), dir);
  }

  /** Undoing the two sections in the order in which they were transformed does not give the file back. */
  lemma NotUndone()
    ensures var d, secs := OverlappingFile(), SharedSections();
            && SectionsFit(secs, |d|)
            && ApplySections(ApplySections(d, secs, X86Branch, Encode), secs, X86Branch, Decode) != d
  {
    hide OverlappingFile, ApplyAll, Splice, ApplyOne;
    var d := OverlappingFile();
    var x := SharedCode();
    var a, b := Range(0, 5, X86Branch), Range(1, 5, X86Branch);
    SharedRanges();
    OverlapBreaksUndo();
    assert d[192..198] == x by { FileTail(); }
    WholeWindow(d, 192, 198);
    TwoInWindow(d, 192, 198, x, a, b, Encode);
    var y := ApplyAll(x, [a, b], Encode);
    TwoInWindow(d, 192, 198, y, a, b, Decode);
    var z := ApplyAll(y, [a, b], Decode);
    WindowBack(d, 192, 198, z);
  }

  lemma FileTail()
    ensures OverlappingFile()[192..198] == SharedCode()
  {
    hide Header, CodeRecord;
  }

  /** `normalize_for_solid` and `denormalize_file`: other bytes come out, and no error. */
  lemma PackerLosesIt()
    ensures var n := NormalizeForSolid(OverlappingFile());
            && DenormalizeFile(n.blob, n.ranges).Ok? && DenormalizeFile(n.blob, n.ranges) != Ok(OverlappingFile())
    ensures !CodeOrderFree(OverlappingFile())
  {
    hide OverlappingFile, Parse, ApplySections, DenormalizeFile, SectionsOrderFree, NormalizeForSolid;
    var d := OverlappingFile();
    Parsed();
    NotUndone();
    SectionsUndoExact(d, SharedSections(), X86Branch);
    NormalizationUndone(d);
  }

  /** `denormalize_blob_sections`, although it finds the same sections again. */
  lemma DecoderLosesIt()
    ensures var d := OverlappingFile();
            && Parse(d).Some? && CodeClear(d, Parse(d).value.sections) && SectionsFit(SharedSections(), |d|)
            && UndoBlob(ApplySections(d, SharedSections(), X86Branch, Encode), false) != d
  {
    hide OverlappingFile, Parse, ApplySections, CodeClear;
    var d := OverlappingFile();
    Parsed();
    CodeIsClear();
    NotUndone();
    ReparseStable(d, X86Branch);
  }

  /** Packed under any path at any level, it unpacks without error to a file of the same length with other bytes. */
  lemma UnpacksToOtherBytes(codec: Codec, lower: Text -> Text, path: Text, level: nat, combos: seq<Combo>)
    requires 0 < |path| <= U16_MAX && EncodesUpTo(codec, 198) && HasValidCombo(combos)
    ensures var d := OverlappingFile();
            Loadable(d) && |Restored(d)| == |d| && Restored(d) != d && UnpacksTo(codec, lower, path, d, level, combos, Restored(d))
  {
    hide EncodesUpTo, HasValidCombo, OverlappingFile, Restored, CodeOrderFree, UnpacksTo;
    PackerLosesIt();
    OneFileUnpacks(codec, lower, path, OverlappingFile(), level, combos);
  }
}

/** ELF64 section discovery: src/elf.rs. */
module Elf {
  import opened Bytes
  import opened Sorting

  datatype Arch = Arm64 | X86

  datatype Section = Section(offset: nat, size: nat, isCode: bool) {
    function End(): nat { offset + size }
  }

  datatype ElfInfo = ElfInfo(sections: seq<Section>, arch: Arch, eType: nat)

  const EM_X86_64 := 62
  const EM_AARCH64 := 183
  const SHT_PROGBITS := 1
  const EHDR_SIZE := 64
  const SHDR_SIZE := 64
  const PHDR_SIZE := 56
  const PT_LOAD := 1
  const ELF_MAGIC: seq<byte> := [0x7F, 0x45, 0x4C, 0x46]

  // ---- Readers ----

  function Field(b: seq<byte>, off: nat, n: nat): nat
    requires off + n <= |b|
  {
    FromLE(b[off..off + n])
  }

  function U16(b: seq<byte>, off: nat): (v: nat)
    requires off + 2 <= |b|
    ensures v <= U16_MAX
  {
    assert Pow256(2) == 0x1_0000;
    Field(b, off, 2)
  }

  function U32(b: seq<byte>, off: nat): nat
    requires off + 4 <= |b|
  {
    Field(b, off, 4)
  }

  function U64(b: seq<byte>, off: nat): nat
    requires off + 8 <= |b|
  {
    Field(b, off, 8)
  }

  /** `flags & bit != 0` for a single bit. */
  predicate HasBit(flags: nat, bit: nat)
    requires bit > 0
  {
    (flags / bit) % 2 == 1
  }

  function ByOffset(): (Section, Section) -> bool {
    (a: Section, b: Section) => a.offset <= b.offset
  }

  // ---- The section table ----

  function MachineArch(machine: nat): Option<Arch> {
    if machine == EM_AARCH64 then Some(Arm64) else if machine == EM_X86_64 then Some(X86) else None
  }

  function ShOff(data: seq<byte>): nat
    requires |data| >= EHDR_SIZE
  {
    U64(data, 40)
  }

  function ShNum(data: seq<byte>): nat
    requires |data| >= EHDR_SIZE
  {
    U16(data, 60)
  }

  /** Where record `k` of the section table starts. */
  function RecordBase(data: seq<byte>, k: nat): nat
    requires |data| >= EHDR_SIZE
  {
    ShOff(data) + k * U16(data, 58)
  }

  /** What one table record contributes. An offset that overflows 64 bits gives up on the whole file. */
  datatype Visit = Skip | GiveUp | Take(section: Section)

  function VisitSection(b: seq<byte>, len: nat): Visit
    requires |b| == SHDR_SIZE
  {
    if U32(b, 4) != SHT_PROGBITS then Skip
    else if U64(b, 32) == 0 then Skip
    else if U64(b, 24) + U64(b, 32) > U64_MAX then GiveUp
    else if U64(b, 24) + U64(b, 32) > len then Skip
    else Take(Section(U64(b, 24), U64(b, 32), HasBit(U64(b, 8), 4)))
  }

  function VisitRecord(data: seq<byte>, k: nat): Visit
    requires |data| >= EHDR_SIZE
  {
    var base := RecordBase(data, k);
    if base + SHDR_SIZE > |data| then Skip else VisitSection(data[base..base + SHDR_SIZE], |data|)
  }

  function Append(found: Option<seq<Section>>, v: Visit): Option<seq<Section>> {
    if found.None? || v.GiveUp? then None else if v.Take? then Some(found.value + [v.section]) else found
  }

  /** The sections found in the first `k` records. */
  function Collect(data: seq<byte>, k: nat): Option<seq<Section>>
    requires |data| >= EHDR_SIZE
  {
    if k == 0 then Some([]) else Append(Collect(data, k - 1), VisitRecord(data, k - 1))
  }

  function Parse(data: seq<byte>): Option<ElfInfo> {
    if |data| < EHDR_SIZE then None
    else if data[0..4] != ELF_MAGIC then None
    else if MachineArch(U16(data, 18)).None? then None
    else if data[4] != 2 then None
    else if RecordBase(data, ShNum(data)) > U64_MAX then None
    else if ShOff(data) == 0 || ShNum(data) == 0 then None
    else if RecordBase(data, ShNum(data)) > |data| then None
    else match Collect(data, ShNum(data))
      case None => None
      case Some(found) => Some(ElfInfo(StableSort(found, ByOffset()), MachineArch(U16(data, 18)).value, U16(data, 16)))
  }

  // ---- What the parser promises about its result ----

  predicate WellFormed(secs: seq<Section>, len: nat) {
    && (forall s :: s in secs ==> s.size > 0 && s.End() <= len)
    && (forall i, j :: 0 <= i < j < |secs| ==> secs[i].offset <= secs[j].offset)
  }

  lemma {:induction false} CollectBounds(data: seq<byte>, k: nat)
    requires |data| >= EHDR_SIZE && Collect(data, k).Some?
    ensures var found := Collect(data, k).value;
            |found| <= k && forall s :: s in found ==> s.size > 0 && s.End() <= |data|
  {
    if k > 0 {
      CollectBounds(data, k - 1);
    }
  }

  lemma SortedSections(found: seq<Section>, len: nat)
    requires forall s :: s in found ==> s.size > 0 && s.End() <= len
    ensures WellFormed(StableSort(found, ByOffset()), len)
  {
    var secs := StableSort(found, ByOffset());
    SortSorts(found, ByOffset());
    SortPermutes(found, ByOffset());
    forall s | s in secs ensures s.size > 0 && s.End() <= len {
      assert s in multiset(secs);
      assert s in found;
    }
    forall i, j | 0 <= i < j < |secs| ensures secs[i].offset <= secs[j].offset {
      assert ByOffset()(secs[i], secs[j]);
    }
  }

  /** Sections come out non-empty, inside the file and in offset order, at most 65535 of them. */
  lemma ParseBounds(data: seq<byte>)
    requires Parse(data).Some?
    ensures var secs := Parse(data).value.sections; WellFormed(secs, |data|) && |secs| <= U16_MAX
  {
    CollectBounds(data, ShNum(data));
    SortedSections(Collect(data, ShNum(data)).value, |data|);
  }

  // ---- What the parser finds, on bytes ----

  /** Record bytes `b` of a file of `len` bytes: PROGBITS, not empty, inside the file, code if flag bit 2 is set. */
  lemma SectionBytes(b: seq<byte>, len: nat)
    requires |b| == SHDR_SIZE
    ensures VisitSection(b, len)
            == if U32(b, 4) != 1 || U64(b, 32) == 0 then Skip
               else if U64(b, 24) + U64(b, 32) > U64_MAX then GiveUp
               else if U64(b, 24) + U64(b, 32) > len then Skip
               else Take(Section(U64(b, 24), U64(b, 32), (b[8] / 4) % 2 == 1))
  {
    hide FromLE;
    LowBits(b[8..16]);
  }

  /** Record bytes `b` of the program header: PT_LOAD, not empty, inside the file, code if flag bit 0 is set. */
  lemma SegmentBytes(b: seq<byte>, len: nat)
    requires |b| == PHDR_SIZE
    ensures VisitSegment(b, len)
            == if U32(b, 0) != 1 || U64(b, 32) == 0 then Skip
               else if U64(b, 8) + U64(b, 32) > U64_MAX then GiveUp
               else if U64(b, 8) + U64(b, 32) > len then Skip
               else Take(Section(U64(b, 8), U64(b, 32), b[4] % 2 == 1))
  {
    hide FromLE;
    LowBits(b[4..8]);
  }

  lemma FieldInside(data: seq<byte>, base: nat, size: nat, off: nat, n: nat)
    requires base + size <= |data| && off + n <= size
    ensures Field(data[base..base + size], off, n) == Field(data, base + off, n)
  {
    var b := data[base..base + size];
    forall k | off <= k < off + n ensures b[k] == data[base + k] {
    }
    assert b[off..off + n] == data[base + off..base + off + n];
  }

  /** A record that a parser looks at: where it starts, its size, and where type, flags, offset and size lie in it. */
  datatype TableShape = TableShape(recordSize: nat, kind: nat, flags: nat, mask: nat, offset: nat, size: nat)

  const SECTIONS := TableShape(64, 4, 8, 4, 24, 32)
  const SEGMENTS := TableShape(56, 0, 4, 1, 8, 32)

  ghost predicate Shaped(t: TableShape) {
    t == SECTIONS || t == SEGMENTS
  }

  /** Where record `k` of a table at `first` with entries of `step` bytes starts. */
  function Start(first: nat, step: nat, k: nat): nat {
    first + k * step
  }

  /** Record `k` lies in the file, is of type 1 and not empty. */
  ghost predicate Loaded(data: seq<byte>, t: TableShape, first: nat, step: nat, k: nat)
    requires Shaped(t)
  {
    var base := Start(first, step, k);
    base + t.recordSize <= |data| && U32(data, base + t.kind) == 1 && U64(data, base + t.size) > 0
  }

  ghost predicate Overflows(data: seq<byte>, t: TableShape, first: nat, step: nat, k: nat)
    requires Shaped(t)
  {
    var base := Start(first, step, k);
    Loaded(data, t, first, step, k) && U64(data, base + t.offset) + U64(data, base + t.size) > U64_MAX
  }

  /** Record `k` describes section `s`. */
  ghost predicate RecordSays(data: seq<byte>, t: TableShape, first: nat, step: nat, k: nat, s: Section)
    requires Shaped(t)
  {
    var base := Start(first, step, k);
    && Loaded(data, t, first, step, k) && s.offset == U64(data, base + t.offset) && s.size == U64(data, base + t.size)
    && s.End() <= |data| && s.End() <= U64_MAX && (s.isCode <==> (data[base + t.flags] / t.mask) % 2 == 1)
  }

  lemma SectionVisit(data: seq<byte>, k: nat)
    requires |data| >= EHDR_SIZE
    ensures VisitRecord(data, k).GiveUp? <==> Overflows(data, SECTIONS, U64(data, 40), U16(data, 58), k)
    ensures forall s :: VisitRecord(data, k) == Take(s) <==> RecordSays(data, SECTIONS, U64(data, 40), U16(data, 58), k, s)
  {
    hide Field, VisitSection;
    var base := RecordBase(data, k);
    if base + SHDR_SIZE <= |data| {
      SectionBytes(data[base..base + SHDR_SIZE], |data|);
      FieldInside(data, base, 64, 4, 4);
      FieldInside(data, base, 64, 24, 8);
      FieldInside(data, base, 64, 32, 8);
    }
  }

  lemma SegmentVisit(data: seq<byte>, k: nat)
    requires |data| >= EHDR_SIZE && SegmentBase(data, k) + PHDR_SIZE <= |data|
    ensures var base := SegmentBase(data, k);
            var v := VisitSegment(data[base..base + PHDR_SIZE], |data|);
            && (v.GiveUp? <==> Overflows(data, SEGMENTS, U64(data, 32), U16(data, 54), k))
            && forall s :: v == Take(s) <==> RecordSays(data, SEGMENTS, U64(data, 32), U16(data, 54), k, s)
  {
    hide Field, VisitSegment;
    var base := SegmentBase(data, k);
    SegmentBytes(data[base..base + PHDR_SIZE], |data|);
    FieldInside(data, base, 56, 0, 4);
    FieldInside(data, base, 56, 8, 8);
    FieldInside(data, base, 56, 32, 8);
  }

  /** The records among the first `n` that describe `s`. */
  ghost function Describers(data: seq<byte>, t: TableShape, first: nat, step: nat, n: nat, s: Section): set<nat>
    requires Shaped(t)
  {
    set k: nat | k < n && RecordSays(data, t, first, step, k, s)
  }

  lemma OneMoreDescriber(data: seq<byte>, t: TableShape, first: nat, step: nat, n: nat, s: Section)
    requires Shaped(t)
    ensures |Describers(data, t, first, step, n + 1, s)|
            == |Describers(data, t, first, step, n, s)| + if RecordSays(data, t, first, step, n, s) then 1 else 0
  {
    hide RecordSays;
    var a, b := Describers(data, t, first, step, n, s), Describers(data, t, first, step, n + 1, s);
    if RecordSays(data, t, first, step, n, s) {
      assert b == a + {n};
    } else {
      assert b == a;
    }
  }

  ghost predicate SomeOverflows(data: seq<byte>, t: TableShape, first: nat, step: nat, n: nat)
    requires Shaped(t)
  {
    exists k: nat :: k < n && Overflows(data, t, first, step, k)
  }

  /** Each section was found as often as records describe it, and an overflowing record gave up on the file. */
  ghost predicate FoundExactly(found: Option<seq<Section>>, data: seq<byte>, t: TableShape, first: nat, step: nat, n: nat)
    requires Shaped(t)
  {
    && (found.None? <==> SomeOverflows(data, t, first, step, n))
    && (found.Some? ==> forall s :: multiset(found.value)[s] == |Describers(data, t, first, step, n, s)|)
  }

  lemma FoundNext(found: Option<seq<Section>>, v: Visit, data: seq<byte>, t: TableShape, first: nat, step: nat, n: nat)
    requires Shaped(t) && FoundExactly(found, data, t, first, step, n)
    requires v.GiveUp? <==> Overflows(data, t, first, step, n)
    requires forall s :: v == Take(s) <==> RecordSays(data, t, first, step, n, s)
    ensures FoundExactly(Append(found, v), data, t, first, step, n + 1)
  {
    hide Overflows, RecordSays, Describers;
    var next := Append(found, v);
    if next.Some? {
      forall s ensures multiset(next.value)[s] == |Describers(data, t, first, step, n + 1, s)| {
        OneMoreDescriber(data, t, first, step, n, s);
        assert v == Take(s) <==> v.Take? && v.section == s;
      }
    }
  }

  lemma FoundNothing(data: seq<byte>, t: TableShape, first: nat, step: nat)
    requires Shaped(t)
    ensures FoundExactly(Some([]), data, t, first, step, 0)
  {
    forall s ensures |Describers(data, t, first, step, 0, s)| == 0 {
      assert Describers(data, t, first, step, 0, s) == {};
    }
  }

  lemma {:induction false} CollectFinds(data: seq<byte>, n: nat)
    requires |data| >= EHDR_SIZE
    ensures FoundExactly(Collect(data, n), data, SECTIONS, U64(data, 40), U16(data, 58), n)
  {
    hide VisitRecord, FoundExactly, Field;
    if n == 0 {
      FoundNothing(data, SECTIONS, U64(data, 40), U16(data, 58));
    } else {
      CollectFinds(data, n - 1);
      SectionVisit(data, n - 1);
      FoundNext(Collect(data, n - 1), VisitRecord(data, n - 1), data, SECTIONS, U64(data, 40), U16(data, 58), n - 1);
    }
  }

  lemma {:induction false} CollectSegmentsFinds(data: seq<byte>, n: nat)
    requires |data| >= EHDR_SIZE && SegmentTableFits(data) && n <= U16(data, 56)
    ensures FoundExactly(CollectSegments(data, n), data, SEGMENTS, U64(data, 32), U16(data, 54), n)
  {
    hide VisitSegment, FoundExactly, Field;
    if n == 0 {
      FoundNothing(data, SEGMENTS, U64(data, 32), U16(data, 54));
    } else {
      CollectSegmentsFinds(data, n - 1);
      SegmentInside(data, n - 1);
      SegmentVisit(data, n - 1);
      var base := SegmentBase(data, n - 1);
      FoundNext(CollectSegments(data, n - 1), VisitSegment(data[base..base + PHDR_SIZE], |data|), data, SEGMENTS,
                U64(data, 32), U16(data, 54), n - 1);
    }
  }

  /** A 64-bit ELF file for x86-64 or AArch64. */
  predicate IsElf64(data: seq<byte>) {
    && |data| >= 64 && data[0..4] == [0x7F, 0x45, 0x4C, 0x46] && data[4] == 2
    && (U16(data, 18) == 62 || U16(data, 18) == 183)
  }

  /** A table that is there and lies in the file. */
  predicate TableInside(data: seq<byte>, first: nat, step: nat, n: nat) {
    first != 0 && n != 0 && Start(first, step, n) <= U64_MAX && Start(first, step, n) <= |data|
  }

  /** Architecture and type of the file, and in offset order each section as often as records describe it. */
  ghost predicate ParsedFrom(info: ElfInfo, data: seq<byte>, t: TableShape, first: nat, step: nat, n: nat)
    requires IsElf64(data) && Shaped(t)
  {
    && (info.arch == Arm64 <==> U16(data, 18) == 183) && info.eType == U16(data, 16)
    && WellFormed(info.sections, |data|)
    && forall s :: multiset(info.sections)[s] == |Describers(data, t, first, step, n, s)|
  }

  lemma SortedFinds(found: seq<Section>, data: seq<byte>, t: TableShape, first: nat, step: nat, n: nat)
    requires IsElf64(data) && Shaped(t) && FoundExactly(Some(found), data, t, first, step, n)
    requires forall s :: s in found ==> s.size > 0 && s.End() <= |data|
    ensures ParsedFrom(ElfInfo(StableSort(found, ByOffset()), if U16(data, 18) == 183 then Arm64 else X86, U16(data, 16)),
                       data, t, first, step, n)
  {
    hide Describers, Field, Overflows;
    SortedSections(found, |data|);
    SortPermutes(found, ByOffset());
  }

  /**
   * The parse, on the bytes of the file: it succeeds exactly for a 64-bit ELF file of a known machine whose
   * section table lies in the file and has no overflowing record, and then is what the table says.
   */
  lemma ParseExact(data: seq<byte>)
    ensures Parse(data).Some? <==>
              && IsElf64(data) && TableInside(data, U64(data, 40), U16(data, 58), U16(data, 60))
              && !SomeOverflows(data, SECTIONS, U64(data, 40), U16(data, 58), U16(data, 60))
    ensures Parse(data).Some? ==>
              IsElf64(data) && ParsedFrom(Parse(data).value, data, SECTIONS, U64(data, 40), U16(data, 58), U16(data, 60))
  {
    hide Collect, SomeOverflows, Field, ParsedFrom;
    if |data| >= EHDR_SIZE {
      CollectFinds(data, U16(data, 60));
      if Parse(data).Some? {
        CollectBounds(data, U16(data, 60));
        SortedFinds(Collect(data, U16(data, 60)).value, data, SECTIONS, U64(data, 40), U16(data, 58), U16(data, 60));
      }
    }
  }

  ghost predicate SomeDescribe(data: seq<byte>, t: TableShape, first: nat, step: nat, n: nat)
    requires Shaped(t)
  {
    exists k: nat, s :: k < n && RecordSays(data, t, first, step, k, s)
  }

  /**
   * The same for the packer: the sections if there are any, and otherwise the loadable segments, if the
   * program headers lie in the file, none overflows and at least one is described.
   */
  lemma ParseForPackExact(data: seq<byte>)
    ensures Parse(data).Some? && Parse(data).value.sections != [] ==> ParseForPack(data) == Parse(data)
    ensures !(Parse(data).Some? && Parse(data).value.sections != []) ==>
              && (ParseForPack(data).Some? <==>
                    && IsElf64(data) && TableInside(data, U64(data, 32), U16(data, 54), U16(data, 56)) && U16(data, 54) >= 56
                    && !SomeOverflows(data, SEGMENTS, U64(data, 32), U16(data, 54), U16(data, 56))
                    && SomeDescribe(data, SEGMENTS, U64(data, 32), U16(data, 54), U16(data, 56)))
              && (ParseForPack(data).Some? ==>
                    IsElf64(data) && ParsedFrom(ParseForPack(data).value, data, SEGMENTS, U64(data, 32), U16(data, 54), U16(data, 56)))
  {
    hide Collect, CollectSegments, SomeOverflows, SomeDescribe, Field, Parse, ParsedFrom;
    if !(Parse(data).Some? && Parse(data).value.sections != []) && IsElf64(data) && SegmentTableFits(data) {
      var first, step, n := U64(data, 32), U16(data, 54), U16(data, 56);
      CollectSegmentsFinds(data, n);
      if CollectSegments(data, n).Some? {
        var found := CollectSegments(data, n).value;
        FoundSome(found, data, SEGMENTS, first, step, n);
        CollectSegmentsBounds(data, n);
        SortedFinds(found, data, SEGMENTS, first, step, n);
      }
    }
  }

  lemma FoundSome(found: seq<Section>, data: seq<byte>, t: TableShape, first: nat, step: nat, n: nat)
    requires Shaped(t) && FoundExactly(Some(found), data, t, first, step, n)
    ensures found != [] <==> SomeDescribe(data, t, first, step, n)
  {
    hide RecordSays, Overflows;
    if found != [] {
      var s := found[0];
      assert s in multiset(found);
      assert Describers(data, t, first, step, n, s) != {};
      var k :| k in Describers(data, t, first, step, n, s);
    }
    if k: nat, s :| k < n && RecordSays(data, t, first, step, k, s) {
      assert k in Describers(data, t, first, step, n, s);
      assert multiset(found)[s] > 0;
    }
  }

  // ---- What the parser reads ----

  /** Both files have the same header and the same bytes in every record that is visited. */
  ghost predicate SameTables(d: seq<byte>, e: seq<byte>) {
    && |d| == |e| && |d| >= EHDR_SIZE && d[..EHDR_SIZE] == e[..EHDR_SIZE]
    && forall k :: 0 <= k < ShNum(d) && RecordBase(d, k) + SHDR_SIZE <= |d| ==>
         d[RecordBase(d, k)..RecordBase(d, k) + SHDR_SIZE] == e[RecordBase(d, k)..RecordBase(d, k) + SHDR_SIZE]
  }

  lemma SameHeaderField(d: seq<byte>, e: seq<byte>, off: nat, n: nat)
    requires |d| == |e| && |d| >= EHDR_SIZE && d[..EHDR_SIZE] == e[..EHDR_SIZE] && off + n <= EHDR_SIZE
    ensures d[off..off + n] == e[off..off + n]
  {
    forall k | off <= k < off + n ensures d[k] == e[k] {
      assert d[k] == d[..EHDR_SIZE][k] && e[k] == e[..EHDR_SIZE][k];
    }
  }

  lemma {:induction false} SameCollect(d: seq<byte>, e: seq<byte>, k: nat)
    requires SameTables(d, e) && k <= ShNum(d)
    ensures Collect(d, k) == Collect(e, k)
  {
    if k > 0 {
      SameHeaderField(d, e, 40, 8);
      SameHeaderField(d, e, 58, 2);
      SameCollect(d, e, k - 1);
    }
  }

  /** The parser depends on the length, the header and the visited records, and on nothing else. */
  lemma ParseFrame(d: seq<byte>, e: seq<byte>)
    requires SameTables(d, e)
    ensures Parse(e) == Parse(d)
  {
    SameHeaderField(d, e, 0, 4);
    SameHeaderField(d, e, 4, 1);
    SameHeaderField(d, e, 16, 2);
    SameHeaderField(d, e, 18, 2);
    SameHeaderField(d, e, 40, 8);
    SameHeaderField(d, e, 58, 2);
    SameHeaderField(d, e, 60, 2);
    assert d[4] == d[4..5][0] && e[4] == e[4..5][0];
    SameCollect(d, e, ShNum(d));
  }

  // ---- The segment fallback of the packer ----

  function SegmentBase(data: seq<byte>, k: nat): nat
    requires |data| >= EHDR_SIZE
  {
    U64(data, 32) + k * U16(data, 54)
  }

  function VisitSegment(b: seq<byte>, len: nat): Visit
    requires |b| == PHDR_SIZE
  {
    if U32(b, 0) != PT_LOAD then Skip
    else if U64(b, 32) == 0 then Skip
    else if U64(b, 8) + U64(b, 32) > U64_MAX then GiveUp
    else if U64(b, 8) + U64(b, 32) > len then Skip
    else Take(Section(U64(b, 8), U64(b, 32), HasBit(U32(b, 4), 1)))
  }

  predicate SegmentTableFits(data: seq<byte>)
    requires |data| >= EHDR_SIZE
  {
    && SegmentBase(data, U16(data, 56)) <= U64_MAX
    && U64(data, 32) != 0 && U16(data, 56) != 0
    && U16(data, 54) >= PHDR_SIZE && SegmentBase(data, U16(data, 56)) <= |data|
  }

  lemma SegmentInside(data: seq<byte>, k: nat)
    requires |data| >= EHDR_SIZE && SegmentTableFits(data) && k < U16(data, 56)
    ensures SegmentBase(data, k) + PHDR_SIZE <= |data|
  {
    var e, n := U16(data, 54), U16(data, 56);
    MulMonotonic(e, k + 1, n);
    assert (k + 1) * e == k * e + e;
  }

  lemma MulMonotonic(e: nat, a: nat, b: nat)
    requires a <= b
    ensures a * e <= b * e
  {
    assert b * e == a * e + (b - a) * e;
  }

  function CollectSegments(data: seq<byte>, k: nat): Option<seq<Section>>
    requires |data| >= EHDR_SIZE && SegmentTableFits(data) && k <= U16(data, 56)
  {
    if k == 0 then Some([])
    else
      SegmentInside(data, k - 1);
      var base := SegmentBase(data, k - 1);
      Append(CollectSegments(data, k - 1), VisitSegment(data[base..base + PHDR_SIZE], |data|))
  }

  function ParseForPack(data: seq<byte>): Option<ElfInfo> {
    if Parse(data).Some? && Parse(data).value.sections != [] then Parse(data)
    else if |data| < EHDR_SIZE || data[0..4] != ELF_MAGIC || data[4] != 2 then None
    else if MachineArch(U16(data, 18)).None? then None
    else if !SegmentTableFits(data) then None
    else match CollectSegments(data, U16(data, 56))
      case None => None
      case Some(found) =>
        if found == [] then None
        else Some(ElfInfo(StableSort(found, ByOffset()), MachineArch(U16(data, 18)).value, U16(data, 16)))
  }

  lemma {:induction false} CollectSegmentsBounds(data: seq<byte>, k: nat)
    requires |data| >= EHDR_SIZE && SegmentTableFits(data) && k <= U16(data, 56) && CollectSegments(data, k).Some?
    ensures var found := CollectSegments(data, k).value;
            |found| <= k && forall s :: s in found ==> s.size > 0 && s.End() <= |data|
  {
    if k > 0 {
      CollectSegmentsBounds(data, k - 1);
    }
  }

  lemma ParseForPackBounds(data: seq<byte>)
    requires ParseForPack(data).Some?
    ensures var secs := ParseForPack(data).value.sections; secs != [] && WellFormed(secs, |data|) && |secs| <= U16_MAX
  {
    if Parse(data).Some? && Parse(data).value.sections != [] {
      ParseBounds(data);
    } else {
      CollectSegmentsBounds(data, U16(data, 56));
      SortedSections(CollectSegments(data, U16(data, 56)).value, |data|);
    }
  }

  // ---- The loops ----

  lemma {:induction false} CollectStaysNone(data: seq<byte>, k: nat, n: nat)
    requires |data| >= EHDR_SIZE && k <= n && Collect(data, k).None?
    ensures Collect(data, n).None?
    decreases n
  {
    if k < n {
      CollectStaysNone(data, k, n - 1);
    }
  }

  method VisitSections(data: seq<byte>, shoff: nat, shentsize: nat, shnum: nat) returns (found: Option<seq<Section>>)
    requires |data| >= EHDR_SIZE && shoff == ShOff(data) && shentsize == U16(data, 58)
    ensures found == Collect(data, shnum)
  {
    hide Field;
    var sections: seq<Section> := [];
    for i := 0 to shnum
      invariant Collect(data, i) == Some(sections)
    {
      var base := shoff + i * shentsize;
      if base + SHDR_SIZE > |data| {
        continue;
      }
      var b := data[base..base + SHDR_SIZE];
      if U32(b, 4) != SHT_PROGBITS {
        continue;
      }
      var size := U64(b, 32);
      if size == 0 {
        continue;
      }
      var offset := U64(b, 24);
      if offset + size > U64_MAX {
        CollectStaysNone(data, i + 1, shnum);
        return None;
      }
      if offset + size > |data| {
        continue;
      }
      sections := sections + [Section(offset, size, HasBit(U64(b, 8), 4))];
    }
    return Some(sections);
  }

  method ParseSections(data: seq<byte>) returns (r: Option<ElfInfo>)
    ensures r == Parse(data)
  {
    if |data| < EHDR_SIZE || data[0..4] != ELF_MAGIC {
      return None;
    }
    hide Field;
    var arch := MachineArch(U16(data, 18));
    if arch.None? || data[4] != 2 {
      return None;
    }
    var shoff, shentsize, shnum := U64(data, 40), U16(data, 58), U16(data, 60);
    if shoff + shnum * shentsize > U64_MAX {
      return None;
    }
    if shoff == 0 || shnum == 0 || shoff + shnum * shentsize > |data| {
      return None;
    }
    var found := VisitSections(data, shoff, shentsize, shnum);
    if found.None? {
      return None;
    }
    return Some(ElfInfo(StableSort(found.value, ByOffset()), arch.value, U16(data, 16)));
  }

  lemma {:induction false} SegmentsStayNone(data: seq<byte>, k: nat, n: nat)
    requires |data| >= EHDR_SIZE && SegmentTableFits(data) && k <= n <= U16(data, 56) && CollectSegments(data, k).None?
    ensures CollectSegments(data, n).None?
    decreases n
  {
    if k < n {
      SegmentsStayNone(data, k, n - 1);
    }
  }

  method VisitSegments(data: seq<byte>, phoff: nat, phentsize: nat, phnum: nat) returns (found: Option<seq<Section>>)
    requires |data| >= EHDR_SIZE && SegmentTableFits(data)
    requires phoff == U64(data, 32) && phentsize == U16(data, 54) && phnum == U16(data, 56)
    ensures found == CollectSegments(data, phnum)
  {
    hide Field, SegmentTableFits;
    var sections: seq<Section> := [];
    for i := 0 to phnum
      invariant CollectSegments(data, i) == Some(sections)
    {
      SegmentInside(data, i);
      var base := phoff + i * phentsize;
      var b := data[base..base + PHDR_SIZE];
      if U32(b, 0) != PT_LOAD {
        continue;
      }
      var offset, size := U64(b, 8), U64(b, 32);
      if size == 0 {
        continue;
      }
      if offset + size > U64_MAX {
        SegmentsStayNone(data, i + 1, phnum);
        return None;
      }
      if offset + size > |data| {
        continue;
      }
      sections := sections + [Section(offset, size, HasBit(U32(b, 4), 1))];
    }
    return Some(sections);
  }

  method ParseSegmentsToo(data: seq<byte>) returns (r: Option<ElfInfo>)
    ensures r == ParseForPack(data)
  {
    hide Field, Parse;
    var info := ParseSections(data);
    if info.Some? && info.value.sections != [] {
      return info;
    }
    if |data| < EHDR_SIZE || data[0..4] != ELF_MAGIC || data[4] != 2 {
      return None;
    }
    var arch := MachineArch(U16(data, 18));
    if arch.None? {
      return None;
    }
    var phoff, phentsize, phnum := U64(data, 32), U16(data, 54), U16(data, 56);
    var end := phoff + phnum * phentsize;
    if end > U64_MAX || phoff == 0 || phnum == 0 || phentsize < PHDR_SIZE || end > |data| {
      return None;
    }
    var found := VisitSegments(data, phoff, phentsize, phnum);
    if found.None? || found.value == [] {
      return None;
    }
    return Some(ElfInfo(StableSort(found.value, ByOffset()), arch.value, U16(data, 16)));
  }
}

/** Splitting a file along its ELF sections: build_chunks of src/compress.rs. */
module Chunking {
  import opened Bytes
  import opened Normalize
  import opened Elf
  import opened Transforms
  import opened CodeSections

  /** A file region with a code flag, like a section. */
  type Chunk = Section

  function Plain(off: nat, end: nat): seq<Chunk> {
    if off < end then [Section(off, end - off, false)] else []
  }

  /** Sections from offset `pos` on, with plain chunks in the gaps. */
  function ChunksFrom(secs: seq<Section>, pos: nat, len: nat): seq<Chunk> {
    if secs == [] then Plain(pos, len)
    else Plain(pos, secs[0].offset) + [secs[0]] + ChunksFrom(secs[1..], secs[0].End(), len)
  }

  datatype Layout = Layout(chunks: seq<Chunk>, arch: Option<Arch>)

  function WholeFile(len: nat): seq<Chunk> {
    [Section(0, len, false)]
  }

  function BuildChunks(data: seq<byte>): (r: Layout)
    ensures SectionsFit(r.chunks, |data|)
  {
    match Parse(data)
    case None => Layout(WholeFile(|data|), None)
    case Some(info) =>
      ParseBounds(data);
      ChunksFit(info.sections, 0, |data|);
      Layout(if info.sections == [] then WholeFile(|data|) else ChunksFrom(info.sections, 0, |data|), Some(info.arch))
  }

  lemma NextChunk(chunks: seq<Chunk>, secs: seq<Section>, pos: nat, len: nat)
    requires secs != []
    ensures chunks + ChunksFrom(secs, pos, len)
            == chunks + Plain(pos, secs[0].offset) + [secs[0]] + ChunksFrom(secs[1..], secs[0].End(), len)
  {
  }

  lemma LastChunk(pos: nat, len: nat)
    ensures forall secs: seq<Section> :: secs == [] ==> ChunksFrom(secs, pos, len) == Plain(pos, len)
  {
  }

  method SplitFile(data: seq<byte>) returns (r: Layout)
    ensures r == BuildChunks(data)
  {
    hide Parse, ChunksFrom;
    var parsed := ParseSections(data);
    if parsed.None? {
      return Layout(WholeFile(|data|), None);
    }
    var info := parsed.value;
    if info.sections == [] {
      return Layout(WholeFile(|data|), Some(info.arch));
    }
    var chunks: seq<Chunk> := [];
    var pos: nat := 0;
    assert [] + ChunksFrom(info.sections, 0, |data|) == ChunksFrom(info.sections, 0, |data|);
    assert info.sections[0..] == info.sections;
    for i := 0 to |info.sections|
      invariant ChunksFrom(info.sections, 0, |data|) == chunks + ChunksFrom(info.sections[i..], pos, |data|)
    {
      var s := info.sections[i];
      assert info.sections[i..][1..] == info.sections[i + 1..];
      NextChunk(chunks, info.sections[i..], pos, |data|);
      ghost var before := chunks;
      if s.offset > pos {
        chunks := chunks + [Section(pos, s.offset - pos, false)];
      }
      assert chunks == before + Plain(pos, s.offset);
      chunks := chunks + [s];
      pos := s.offset + s.size;
    }
    LastChunk(pos, |data|);
    if pos < |data| {
      chunks := chunks + [Section(pos, |data| - pos, false)];
    }
    return Layout(chunks, Some(info.arch));
  }

  // ---- Code chunks are the code sections ----

  lemma {:induction false} CodeRangesConcat(a: seq<Section>, b: seq<Section>, xf: Transform)
    ensures CodeRanges(a + b, xf) == CodeRanges(a, xf) + CodeRanges(b, xf)
  {
    if a == [] {
      assert a + b == b;
    } else {
      assert (a + b)[1..] == a[1..] + b;
      CodeRangesConcat(a[1..], b, xf);
    }
  }

  lemma PlainHasNoCode(off: nat, end: nat, xf: Transform)
    ensures CodeRanges(Plain(off, end), xf) == []
  {
  }

  lemma FirstSection(secs: seq<Section>, xf: Transform)
    requires secs != []
    ensures CodeRanges(secs, xf) == RangeOf(secs[0], xf) + CodeRanges(secs[1..], xf)
    ensures CodeRanges([secs[0]], xf) == RangeOf(secs[0], xf)
  {
    assert [secs[0]][1..] == [];
  }

  lemma {:induction false} CodeChunks(secs: seq<Section>, pos: nat, len: nat, xf: Transform)
    ensures CodeRanges(ChunksFrom(secs, pos, len), xf) == CodeRanges(secs, xf)
  {
    if secs == [] {
      PlainHasNoCode(pos, len, xf);
    } else {
      hide CodeRanges, RangeOf, Plain;
      var gap, rest := Plain(pos, secs[0].offset), ChunksFrom(secs[1..], secs[0].End(), len);
      CodeChunks(secs[1..], secs[0].End(), len, xf);
      PlainHasNoCode(pos, secs[0].offset, xf);
      CodeRangesConcat(gap + [secs[0]], rest, xf);
      CodeRangesConcat(gap, [secs[0]], xf);
      FirstSection(secs, xf);
      assert [] + RangeOf(secs[0], xf) == RangeOf(secs[0], xf);
    }
  }

  // ---- Size and number ----

  lemma {:induction false} ChunksFit(secs: seq<Section>, pos: nat, len: nat)
    requires SectionsFit(secs, len) && pos <= len
    ensures SectionsFit(ChunksFrom(secs, pos, len), len)
  {
    if secs != [] {
      ChunksFit(secs[1..], secs[0].End(), len);
    }
  }

  lemma {:induction false} ChunkCount(secs: seq<Section>, pos: nat, len: nat)
    ensures |secs| <= |ChunksFrom(secs, pos, len)| <= 2 * |secs| + 1
  {
    if secs != [] {
      ChunkCount(secs[1..], secs[0].End(), len);
    }
  }

  // ---- Which chunks there are ----

  /** A gap: plain, not empty, from the start or the end of a section to the next section or the end of the file. */
  ghost predicate IsGap(c: Chunk, secs: seq<Section>, pos: nat, len: nat) {
    && !c.isCode && c.size > 0
    && (c.offset == pos || exists s :: s in secs && c.offset == s.End())
    && (c.End() == len || exists s :: s in secs && c.End() == s.offset)
  }

  /** Every section is a chunk of its own, and every other chunk is a gap. */
  lemma {:induction false} SectionsAndGaps(secs: seq<Section>, pos: nat, len: nat)
    ensures forall s :: s in secs ==> s in ChunksFrom(secs, pos, len)
    ensures forall c :: c in ChunksFrom(secs, pos, len) ==> c in secs || IsGap(c, secs, pos, len)
  {
    if secs != [] {
      var rest := secs[1..];
      SectionsAndGaps(rest, secs[0].End(), len);
      assert secs == [secs[0]] + rest;
      forall c | c in ChunksFrom(secs, pos, len) ensures c in secs || IsGap(c, secs, pos, len) {
        if c in Plain(pos, secs[0].offset) {
          assert c.End() == secs[0].offset && secs[0] in secs;
        } else if c != secs[0] && c !in secs {
          assert IsGap(c, rest, secs[0].End(), len);
          assert secs[0] in secs;
        }
      }
    }
  }

  // ---- Tiling ----

  /** Each section starts at or after the end of the one before. */
  predicate OrderedFrom(secs: seq<Section>, pos: nat) {
    secs == [] || (pos <= secs[0].offset && OrderedFrom(secs[1..], secs[0].End()))
  }

  function SumSizes(chunks: seq<Chunk>): nat {
    if chunks == [] then 0 else chunks[0].size + SumSizes(chunks[1..])
  }

  lemma {:induction false} SumSizesConcat(a: seq<Chunk>, b: seq<Chunk>)
    ensures SumSizes(a + b) == SumSizes(a) + SumSizes(b)
  {
    if a == [] {
      assert a + b == b;
    } else {
      assert (a + b)[1..] == a[1..] + b;
      SumSizesConcat(a[1..], b);
    }
  }

  /** The chunk sizes add up to the file length exactly when no section reaches into the next; otherwise to more. */
  lemma {:induction false} SizesAddUp(secs: seq<Section>, pos: nat, len: nat)
    requires SectionsFit(secs, len) && pos <= len
    ensures SumSizes(ChunksFrom(secs, pos, len)) >= len - pos
    ensures SumSizes(ChunksFrom(secs, pos, len)) == len - pos <==> OrderedFrom(secs, pos)
  {
    if secs != [] {
      var gap := Plain(pos, secs[0].offset);
      var rest := ChunksFrom(secs[1..], secs[0].End(), len);
      SizesAddUp(secs[1..], secs[0].End(), len);
      SumSizesConcat(gap + [secs[0]], rest);
      SumSizesConcat(gap, [secs[0]]);
      assert [secs[0]][1..] == [];
    }
  }

  /** Consecutive chunks from `pos` to `len`. */
  predicate Tiles(chunks: seq<Chunk>, pos: nat, len: nat) {
    if chunks == [] then pos == len
    else chunks[0].offset == pos && chunks[0].End() <= len && Tiles(chunks[1..], chunks[0].End(), len)
  }

  lemma {:induction false} ChunksTile(secs: seq<Section>, pos: nat, len: nat)
    requires SectionsFit(secs, len) && pos <= len && OrderedFrom(secs, pos)
    ensures Tiles(ChunksFrom(secs, pos, len), pos, len)
  {
    if secs == [] {
      if pos < len {
        assert Plain(pos, len)[1..] == [];
      }
    } else {
      var s := secs[0];
      var rest := ChunksFrom(secs[1..], s.End(), len);
      ChunksTile(secs[1..], s.End(), len);
      var chunks := ChunksFrom(secs, pos, len);
      if pos < s.offset {
        assert chunks[1..] == [s] + rest && chunks[1..][1..] == rest;
      } else {
        assert chunks == [s] + rest && chunks[1..] == rest;
      }
    }
  }

  /** For sections as the parser returns them, being in order is the same as not overlapping. */
  lemma {:induction false} OrderedIsApart(secs: seq<Section>, pos: nat, len: nat)
    requires WellFormed(secs, len) && (secs != [] ==> pos <= secs[0].offset)
    ensures OrderedFrom(secs, pos) <==> SectionsApart(secs)
  {
    if |secs| > 1 {
      var rest := secs[1..];
      if secs[0].End() <= rest[0].offset {
        assert WellFormed(rest, len);
        OrderedIsApart(rest, secs[0].End(), len);
        if SectionsApart(rest) {
          forall i, j | 0 <= i < j < |secs| ensures secs[i].End() <= secs[j].offset || secs[j].End() <= secs[i].offset {
            if i > 0 {
              assert secs[i] == rest[i - 1] && secs[j] == rest[j - 1];
            } else {
              assert secs[1].offset <= secs[j].offset;
            }
          }
        }
        if SectionsApart(secs) {
          forall i, j | 0 <= i < j < |rest| ensures rest[i].End() <= rest[j].offset || rest[j].End() <= rest[i].offset {
            assert rest[i] == secs[i + 1] && rest[j] == secs[j + 1];
          }
        }
      } else {
        assert secs[0] in secs && secs[1] in secs;
        assert secs[0].offset <= secs[1].offset;
        assert !(secs[0].End() <= secs[1].offset || secs[1].End() <= secs[0].offset);
      }
    }
  }

  /** The whole picture for any file: code chunks, counts within the decoder's cap, and tiling exactly without overlap. */
  lemma ChunkPartition(data: seq<byte>, xf: Transform)
    requires Parse(data).Some?
    ensures var secs, chunks := Parse(data).value.sections, BuildChunks(data).chunks;
            && CodeRanges(chunks, xf) == CodeRanges(secs, xf)
            && SectionsFit(chunks, |data|)
            && 1 <= |chunks| <= 131071
            && (SumSizes(chunks) == |data| <==> SectionsApart(secs))
            && (SectionsApart(secs) ==> Tiles(chunks, 0, |data|))
  {
    var secs := Parse(data).value.sections;
    ParseBounds(data);
    if secs == [] {
      assert WholeFile(|data|)[1..] == [];
    } else {
      CodeChunks(secs, 0, |data|, xf);
      ChunksFit(secs, 0, |data|);
      ChunkCount(secs, 0, |data|);
      SizesAddUp(secs, 0, |data|);
      OrderedIsApart(secs, 0, |data|);
      if SectionsApart(secs) {
        ChunksTile(secs, 0, |data|);
      }
    }
  }
}

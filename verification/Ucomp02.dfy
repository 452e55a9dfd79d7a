/** UCOMP02 as a whole: pack_specs, pack_single and unpack of src/pack.rs. */
module Ucomp02 {
  import opened Bytes
  import opened Lzma
  import opened Decompress
  import opened ParallelDecode
  import opened CodeSections
  import opened Chunking
  import opened Compress
  import opened ContainerFormat
  import opened ContainerCodec
  import opened Unpacking
  import opened Packing

  // ---- Packing ----

  lemma WholeFileFits(len: nat)
    ensures SectionsFit(WholeFile(len), len)
  {
  }

  /** The image `pack_specs` writes. */
  ghost function PackImage(codec: Codec, lower: Text -> Text, inp: Inputs, level: nat, combos: seq<Combo>): Result<seq<byte>>
    requires Packable(lower, inp)
  {
    var entries, solid := Entries(lower, inp), Solid(lower, inp);
    if entries == [] then Err(Manifest)
    else
      WholeFileFits(|solid|);
      var ucomp :- CompressImage(codec, solid, WholeFile(|solid|), None, level, combos);
      ContainerBytes(entries, ucomp)
  }

  method Pack(codec: Codec, lower: Text -> Text, inp: Inputs, level: nat, combos: seq<Combo>) returns (r: Result<seq<byte>>)
    requires Packable(lower, inp)
    ensures r == PackImage(codec, lower, inp, level, combos)
  {
    hide CompressImage, ContainerBytes, Entries, Solid;
    var entries, solid := Plan(lower, inp);
    if entries == [] {
      return Err(Manifest);
    }
    WholeFileFits(|solid|);
    var ucomp :- CompressData(codec, solid, WholeFile(|solid|), None, level, combos);
    var image := EncodeContainer(entries, ucomp);
    return image;
  }

  /** The image `pack_single` writes: the payload is the UCOMP01 image of the file, split along its sections. */
  function SingleFileImage(codec: Codec, name: Text, meta: FileMeta, data: seq<byte>, level: nat, combos: seq<Combo>): Result<seq<byte>>
    requires Loadable(data)
  {
    var l := BuildChunks(data);
    var ucomp :- CompressImage(codec, data, l.chunks, l.arch, level, combos);
    ContainerBytes([SingleEntry(name, meta, |data|)], ucomp)
  }

  function SingleEntry(name: Text, meta: FileMeta, size: u64): PackEntry {
    PackEntry(name, File, meta, None, [], 0, size, [])
  }

  method PackSingle(codec: Codec, name: Text, meta: FileMeta, data: seq<byte>, level: nat, combos: seq<Combo>) returns (r: Result<seq<byte>>)
    requires Loadable(data)
    ensures r == SingleFileImage(codec, name, meta, data, level, combos)
  {
    hide BuildChunks, CompressImage, ContainerBytes;
    var l := SplitFile(data);
    var ucomp :- CompressData(codec, data, l.chunks, l.arch, level, combos);
    var image := EncodeContainer([SingleEntry(name, meta, |data|)], ucomp);
    return image;
  }

  // ---- Unpacking ----

  function StoredOf(e: PackEntry): Stored {
    Stored(e.solidOff, e.solidSize, e.codeRanges)
  }

  function StoredInner(z: ZipInner): Stored {
    Stored(z.solidOff, z.solidSize, z.codeRanges)
  }

  function StoredFiles(es: seq<PackEntry>): seq<Stored> {
    if es == [] then [] else (if es[0].kind == File then [StoredOf(es[0])] else []) + StoredFiles(es[1..])
  }

  function FilePaths(es: seq<PackEntry>): seq<Text> {
    if es == [] then [] else (if es[0].kind == File then [es[0].path] else []) + FilePaths(es[1..])
  }

  datatype InnerFile = InnerFile(path: Text, plain: seq<byte>)

  /** The inner files of one zip, in order. */
  function RebuildInners(solid: seq<byte>, zs: seq<ZipInner>): Result<seq<InnerFile>> {
    if zs == [] then Ok([])
    else if zs[0].kind != ZIP_FILE then RebuildInners(solid, zs[1..])
    else
      var plain :- ExtractFile(solid, StoredInner(zs[0]));
      Prepend([InnerFile(zs[0].path, plain)], RebuildInners(solid, zs[1..]))
  }

  datatype RebuiltZip = RebuiltZip(path: Text, files: seq<InnerFile>)

  function RebuildZips(solid: seq<byte>, es: seq<PackEntry>): Result<seq<RebuiltZip>> {
    if es == [] then Ok([])
    else if es[0].kind != Zip then RebuildZips(solid, es[1..])
    else
      var files :- RebuildInners(solid, es[0].zipInners);
      Prepend([RebuiltZip(es[0].path, files)], RebuildZips(solid, es[1..]))
  }

  /** Contents of the restored tree: top-level files under their paths, zips with their inner files. */
  datatype Tree = Tree(paths: seq<Text>, files: seq<seq<byte>>, zips: seq<RebuiltZip>)

  function UnpackImage(codec: Codec, utf8: Utf8, image: seq<byte>): Result<Tree> {
    var c :- ParseContainer(utf8, image);
    var solid :- DecompressBytes(codec, c.solid);
    var u :- UnpackInPlace(solid, StoredFiles(c.entries));
    var zips :- RebuildZips(u.1, c.entries);
    Ok(Tree(FilePaths(c.entries), u.0, zips))
  }

  method RebuildZipFiles(solid: seq<byte>, zs: seq<ZipInner>) returns (r: Result<seq<InnerFile>>)
    ensures r == RebuildInners(solid, zs)
  {
    hide ExtractFile;
    var files: seq<InnerFile> := [];
    assert zs[0..] == zs;
    PrependNothing(RebuildInners(solid, zs));
    for i := 0 to |zs|
      invariant RebuildInners(solid, zs) == Prepend(files, RebuildInners(solid, zs[i..]))
    {
      assert zs[i..][0] == zs[i] && zs[i..][1..] == zs[i + 1..];
      if zs[i].kind == ZIP_FILE {
        var plain :- Extract(solid, StoredInner(zs[i]));
        var file := InnerFile(zs[i].path, plain);
        PrependAssociative(files, [file], RebuildInners(solid, zs[i + 1..]));
        files := files + [file];
      }
    }
    assert files + [] == files;
    return Ok(files);
  }

  method Unpack(codec: Codec, utf8: Utf8, image: seq<byte>, cores: nat) returns (r: Result<Tree>)
    requires cores >= 1
    ensures r == UnpackImage(codec, utf8, image)
  {
    hide ParseContainer, DecompressBytes, UnpackInPlace, RebuildInners;
    var parsed :- ParseImage(utf8, image);
    var entries: seq<PackEntry>, start, end := parsed.0, parsed.1, parsed.2;
    var solid :- DecompressArchive(codec, image[start..end], cores);
    var buf := new byte[|solid|](i requires 0 <= i < |solid| => solid[i]);
    assert buf[..] == solid;
    var files :- UnpackFiles(buf, StoredFiles(entries));
    var zips: seq<RebuiltZip> := [];
    assert entries[0..] == entries;
    ghost var all := RebuildZips(buf[..], entries);
    PrependNothing(all);
    for i := 0 to |entries|
      invariant all == RebuildZips(buf[..], entries) == Prepend(zips, RebuildZips(buf[..], entries[i..]))
    {
      var e: PackEntry := entries[i];
      assert entries[i..][0] == e && entries[i..][1..] == entries[i + 1..];
      if e.kind == Zip {
        var inner :- RebuildZipFiles(buf[..], e.zipInners);
        PrependAssociative(zips, [RebuiltZip(e.path, inner)], RebuildZips(buf[..], entries[i + 1..]));
        zips := zips + [RebuiltZip(e.path, inner)];
      }
    }
    assert zips + [] == zips;
    return Ok(Tree(FilePaths(entries), files, zips));
  }
}

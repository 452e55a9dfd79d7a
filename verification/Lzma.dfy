/** LZMA2 framing around a codec that is a parameter of the model: src/lzma.rs. */
module Lzma {
  import opened Bytes

  const MAX_OUTPUT: nat := 2 * 1024 * 1024 * 1024

  /** The foreign LZMA2 encoder (input, dictionary, lc, lp, pb, depth) and decoder (stream, dictionary). */
  datatype RawCodec = RawCodec(
    encode: (seq<byte>, nat, nat, nat, nat, nat) -> Option<seq<byte>>,
    decode: (seq<byte>, nat) -> Option<seq<byte>>)

  /** What the model takes from the foreign code: a stream decodes under the dictionary it was made with. */
  ghost predicate Sound(c: RawCodec) {
    forall x, dict, lc, lp, pb, depth :: c.encode(x, dict, lc, lp, pb, depth).Some? ==>
      var stream := c.encode(x, dict, lc, lp, pb, depth).value;
      c.decode(stream, dict) == Some(x) && |stream| + 1 <= U32_MAX
  }

  function StoredCodec(): RawCodec {
    RawCodec((x: seq<byte>, dict, lc, lp, pb, depth) => if |x| + 1 <= U32_MAX then Some(x) else None,
             (s: seq<byte>, dict) => Some(s))
  }

  /** The hypothesis can be met: storing the input is a sound codec. */
  type Codec = c: RawCodec | Sound(c) ghost witness StoredCodec()

  // ---- Dictionary sizes ----

  function Pow2(k: nat): (p: nat)
    ensures p > 0
  {
    if k == 0 then 1 else 2 * Pow2(k - 1)
  }

  /** `(2 | (prop & 1)) << (prop / 2 + 11)` on 32 bits. */
  function DecodeProps(prop: byte): u32 {
    ((2 + prop % 2) * Pow2(prop / 2 + 11)) % 0x1_0000_0000
  }

  function PropsFrom(prop: byte, dict: u32): (r: byte)
    requires prop <= 40
    decreases 40 - prop
  {
    if prop == 40 || DecodeProps(prop) >= dict then prop else PropsFrom(prop + 1, dict)
  }

  function DictPropsByte(dict: u32): byte {
    PropsFrom(0, dict)
  }

  function DictSizeFromProps(prop: byte): Option<u32> {
    if prop >= 40 then None else Some(DecodeProps(prop))
  }

  function MaxDict(level: nat): u32 {
    if level == 0 then 16 * 1024 * 1024
    else if level == 1 then 32 * 1024 * 1024
    else if level == 2 then 64 * 1024 * 1024
    else 128 * 1024 * 1024
  }

  function DictTarget(size: nat, level: nat): u32 {
    var t := if size <= MaxDict(level) then size else MaxDict(level);
    if t >= 4096 then t else 4096
  }

  function OptimalDictSize(size: nat, level: nat): u32 {
    DecodeProps(DictPropsByte(DictTarget(size, level)))
  }

  method FindDictPropsByte(dict: u32) returns (r: byte)
    ensures r == DictPropsByte(dict)
  {
    for prop := 0 to 40
      invariant DictPropsByte(dict) == PropsFrom(prop, dict)
    {
      if DecodeProps(prop) >= dict {
        return prop;
      }
    }
    return 40;
  }

  lemma {:induction false} Pow2Monotonic(a: nat, b: nat)
    requires a <= b
    ensures Pow2(a) <= Pow2(b)
    decreases b
  {
    if a < b {
      Pow2Monotonic(a, b - 1);
    }
  }

  lemma {:induction false} Pow2Sum(a: nat, b: nat)
    ensures Pow2(a + b) == Pow2(a) * Pow2(b)
  {
    if a > 0 {
      Pow2Sum(a - 1, b);
      assert Pow2(a + b) == 2 * Pow2(a - 1 + b);
      assert 2 * (Pow2(a - 1) * Pow2(b)) == (2 * Pow2(a - 1)) * Pow2(b);
    }
  }

  lemma Pow2Thirty()
    ensures Pow2(30) == 0x4000_0000
  {
    assert Pow2(5) == 32;
    Pow2Sum(5, 5);
    Pow2Sum(10, 10);
    Pow2Sum(10, 20);
  }

  lemma PropsFit(prop: byte)
    requires prop < 40
    ensures DecodeProps(prop) == if prop % 2 == 0 then 2 * Pow2(prop / 2 + 11) else 3 * Pow2(prop / 2 + 11)
    ensures DecodeProps(prop) > 0
  {
    hide Pow2;
    var p := Pow2(prop / 2 + 11);
    Pow2Monotonic(prop / 2 + 11, 30);
    Pow2Thirty();
    assert (2 + prop % 2) * p == if prop % 2 == 0 then 2 * p else 3 * p;
  }

  /** Neighbouring sizes are in the ratio 3/2 or 4/3. */
  lemma PropsStep(prop: byte)
    requires prop + 1 < 40
    ensures DecodeProps(prop) < DecodeProps(prop + 1) && 2 * DecodeProps(prop + 1) <= 3 * DecodeProps(prop)
  {
    hide DecodeProps;
    PropsFit(prop);
    PropsFit(prop + 1);
    var k := prop / 2 + 11;
    if prop % 2 == 0 {
      assert (prop + 1) / 2 + 11 == k;
    } else {
      assert (prop + 1) / 2 + 11 == k + 1 && Pow2(k + 1) == 2 * Pow2(k);
    }
  }

  lemma {:induction false} PropsMonotonic(p: byte, q: byte)
    requires p < q < 40
    ensures DecodeProps(p) < DecodeProps(q)
    decreases q
  {
    PropsStep(q - 1);
    if p < q - 1 {
      PropsMonotonic(p, q - 1);
    }
  }

  lemma {:induction false} PropsFromLeast(prop: byte, dict: u32)
    requires prop <= 40
    ensures var r := PropsFrom(prop, dict);
            && prop <= r <= 40 && (r < 40 ==> DecodeProps(r) >= dict)
            && forall q :: prop <= q < r ==> DecodeProps(q) < dict
    decreases 40 - prop
  {
    if prop < 40 && DecodeProps(prop) < dict {
      PropsFromLeast(prop + 1, dict);
    }
  }

  /** The props byte is the least adequate one, and inverts the decoder on 0..39. */
  lemma DictPropsByteLeast(dict: u32)
    ensures var r := DictPropsByte(dict);
            && r <= 40 && (r < 40 ==> DecodeProps(r) >= dict) && (forall q: byte :: q < r ==> DecodeProps(q) < dict)
  {
    PropsFromLeast(0, dict);
  }

  lemma DictPropsByteInverts(prop: byte)
    requires prop < 40
    ensures DictPropsByte(DecodeProps(prop)) == prop
  {
    var r := DictPropsByte(DecodeProps(prop));
    DictPropsByteLeast(DecodeProps(prop));
    if r < prop {
      PropsMonotonic(r, prop);
    }
  }

  lemma TargetFits(size: nat, level: nat)
    ensures DictPropsByte(DictTarget(size, level)) < 40
  {
    hide DecodeProps;
    DictPropsByteLeast(DictTarget(size, level));
    PropsFit(39);
    Pow2Thirty();
    assert DecodeProps(39) == 3 * 0x4000_0000;
  }

  lemma SmallestDict()
    ensures DecodeProps(0) == 4096
  {
    PropsFit(0);
    assert Pow2(5) == 32;
    Pow2Sum(5, 5);
  }

  /** The dictionary covers the target with less than half of it to spare, and its own byte decodes to it. */
  lemma OptimalDictSizeBounds(size: nat, level: nat)
    ensures var t, d := DictTarget(size, level), OptimalDictSize(size, level);
            && t <= d && (t > 4096 ==> 2 * d < 3 * t)
            && DictSizeFromProps(DictPropsByte(d)) == Some(d)
  {
    hide DecodeProps, DictTarget, PropsFrom;
    var t := DictTarget(size, level);
    var p := DictPropsByte(t);
    TargetFits(size, level);
    DictPropsByteLeast(t);
    DictPropsByteInverts(p);
    if p > 0 {
      PropsStep(p - 1);
    } else {
      SmallestDict();
    }
  }

  // ---- Payloads ----

  function DepthLimit(level: nat): nat {
    if level == 0 then 32 else if level == 1 then 128 else if level == 2 then 2048 else 500_000
  }

  datatype Combo = Combo(lc: nat, lp: nat, pb: nat)

  /** The props byte, then the raw stream. */
  function CompressBuf(codec: Codec, input: seq<byte>, c: Combo, level: nat): Result<seq<byte>> {
    if c.lc > 8 || c.lp > 4 || c.pb > 4 || c.lc + c.lp > 4 then Err(Error.Lzma)
    else
      var dict := OptimalDictSize(|input|, level);
      match codec.encode(input, dict, c.lc, c.lp, c.pb, DepthLimit(level))
      case None => Err(Error.Lzma)
      case Some(stream) => Ok([DictPropsByte(dict)] + stream)
  }

  function DecompressBuf(codec: Codec, input: seq<byte>, origSize: nat): Result<seq<byte>> {
    if input == [] then Err(Error.Lzma)
    else if origSize > MAX_OUTPUT then Err(TooLarge)
    else match DictSizeFromProps(input[0])
      case None => Err(Error.Lzma)
      case Some(dict) =>
        match codec.decode(input[1..], dict)
        case None => Err(Error.Lzma)
        case Some(out) => if |out| != origSize then Err(Error.Lzma) else Ok(out)
  }

  /** A payload decodes exactly if it names a dictionary below 4 GiB and the codec gives back as many bytes as declared. */
  lemma DecodesExactly(codec: Codec, input: seq<byte>, origSize: nat, out: seq<byte>)
    ensures DecompressBuf(codec, input, origSize) == Ok(out) <==>
              && |input| > 0 && origSize <= 0x8000_0000 && input[0] < 40 && |out| == origSize
              && codec.decode(input[1..], DecodeProps(input[0])) == Some(out)
  {
  }

  /** A payload is never empty, fits its 32-bit length field, and decodes to its input whenever the cap allows. */
  lemma PayloadRoundTrip(codec: Codec, input: seq<byte>, c: Combo, level: nat)
    requires CompressBuf(codec, input, c, level).Ok?
    ensures var p := CompressBuf(codec, input, c, level).value;
            && 1 <= |p| <= U32_MAX
            && DecompressBuf(codec, p, |input|) == if |input| <= MAX_OUTPUT then Ok(input) else Err(TooLarge)
  {
    var dict := OptimalDictSize(|input|, level);
    OptimalDictSizeBounds(|input|, level);
    var stream := codec.encode(input, dict, c.lc, c.lp, c.pb, DepthLimit(level)).value;
    assert ([DictPropsByte(dict)] + stream)[1..] == stream;
  }
}

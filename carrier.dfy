/** The carrier codec: writing a bitstream into the least-significant bits of an
    image's pixel bytes and reading it back (myapplication.py, lines 25-44 and 60-68).
    The image is the byte buffer the program reads from and writes to disk. */
module CarrierCodec {
  import opened BitPacker

  /** The number of leading bytes assumed to be the bitmap header (never modified). */
  const HeaderSize: nat := 54

  /** `byte & 1`: the parity of the byte. */
  function Lsb(b: bv8): (r: Bit)
    ensures r == b as int % 2
  {
    (b & 1) as int
  }

  /** `(byte & 0xFE) | bit`: only the least-significant bit changes, and it becomes `bit`. */
  function SetLsb(b: bv8, bit: Bit): (r: bv8)
    ensures r & 0xFE == b & 0xFE
    ensures Lsb(r) == bit
  {
    (b & 0xFE) | bit as bv8
  }

  /** `image_data[:54]`: the whole buffer when it is shorter than the header. */
  function Header(image: seq<bv8>): (h: seq<bv8>)
    ensures |h| == Min(|image|, HeaderSize)
    ensures h == image[..|h|]
  {
    if |image| < HeaderSize then image else image[..HeaderSize]
  }

  /** `image_data[54:]`: empty when the buffer is shorter than the header. */
  function Pixels(image: seq<bv8>): (p: seq<bv8>)
    ensures |p| == if |image| < HeaderSize then 0 else |image| - HeaderSize
    ensures forall i {:trigger p[i]} :: 0 <= i < |p| ==> p[i] == image[HeaderSize + i]
  {
    if |image| < HeaderSize then [] else image[HeaderSize..]
  }

  /** The image the embedder writes: the header, then each pixel byte with bit i of
      `bits` in its least-significant bit while bits remain. */
  function Embedded(image: seq<bv8>, bits: seq<Bit>): (r: seq<bv8>)
    ensures |r| == |image|
    ensures forall i {:trigger r[i]} :: 0 <= i < |image| && i < HeaderSize ==> r[i] == image[i]
    ensures forall i {:trigger r[i]} :: HeaderSize <= i < |image| ==> r[i] & 0xFE == image[i] & 0xFE
    ensures forall i {:trigger r[i]} :: HeaderSize <= i < |image| && i < HeaderSize + |bits| ==>
      Lsb(r[i]) == bits[i - HeaderSize]
    ensures forall i {:trigger r[i]} :: HeaderSize + |bits| <= i < |image| ==> r[i] == image[i]
  {
    Header(image) + Stamped(Pixels(image), bits)
  }

  /** The pixel bytes after embedding: byte i carries bit i while bits remain. */
  function Stamped(pixels: seq<bv8>, bits: seq<Bit>): (r: seq<bv8>)
  {
    seq(|pixels|, i requires 0 <= i < |pixels| => if i < |bits| then SetLsb(pixels[i], bits[i]) else pixels[i])
  }

  /** The bits the extractor reads: the least-significant bit of every pixel byte, in order. */
  function ExtractedBits(image: seq<bv8>): (r: seq<Bit>)
    ensures |r| == if |image| < HeaderSize then 0 else |image| - HeaderSize
    ensures forall i {:trigger r[i]} :: 0 <= i < |r| ==> r[i] == Lsb(image[HeaderSize + i])
  {
    var p := Pixels(image);
    seq(|p|, i requires 0 <= i < |p| => Lsb(p[i]))
  }

  /** The embedding loop: a working copy of the pixel bytes is updated in place, one
      message bit per byte, stopping when the bits or the pixels run out; the result is
      the untouched header followed by the updated pixels. */
  method EmbedBits(image: seq<bv8>, bits: seq<Bit>) returns (output: seq<bv8>)
    ensures output == Embedded(image, bits)
  {
    var source := Pixels(image);
    var pixelData := new bv8[|source|](i requires 0 <= i < |source| => source[i]);
    var messageIndex := 0;
    for i := 0 to pixelData.Length
      invariant messageIndex == i <= |bits|
      invariant forall j :: 0 <= j < i ==> pixelData[j] == SetLsb(source[j], bits[j])
      invariant forall j :: i <= j < pixelData.Length ==> pixelData[j] == source[j]
    {
      if messageIndex < |bits| {
        pixelData[i] := (pixelData[i] & 0xFE) | bits[messageIndex] as bv8;
        messageIndex := messageIndex + 1;
      } else {
        break;
      }
    }
    assert pixelData[..] == Stamped(source, bits);
    output := Header(image) + pixelData[..];
  }

  /** The extraction loop: the least-significant bit of each pixel byte is appended to
      the bit string. */
  method ExtractBits(image: seq<bv8>) returns (bits: seq<Bit>)
    ensures bits == ExtractedBits(image)
  {
    var pixelData := Pixels(image);
    bits := [];
    for i := 0 to |pixelData|
      invariant |bits| == i
      invariant forall j :: 0 <= j < i ==> bits[j] == Lsb(pixelData[j])
    {
      bits := bits + [Lsb(pixelData[i])];
    }
  }

  /** Extraction reads back what embedding wrote when the bitstream fits in the pixels:
      the bitstream itself, followed by the original least-significant bits. */
  lemma ExtractEmbeddedFits(image: seq<bv8>, bits: seq<Bit>)
    requires |bits| <= |Pixels(image)|
    ensures ExtractedBits(Embedded(image, bits)) == bits + ExtractedBits(image)[|bits|..]
  {
    var e := ExtractedBits(Embedded(image, bits));
    var rest := ExtractedBits(image)[|bits|..];
    assert forall i :: 0 <= i < |e| ==> e[i] == (bits + rest)[i];
  }

  /** When the bitstream is longer than the pixels, only the first pixel-count bits
      are written, and that prefix is all extraction reads. */
  lemma ExtractEmbeddedTruncated(image: seq<bv8>, bits: seq<Bit>)
    requires |bits| > |Pixels(image)|
    ensures ExtractedBits(Embedded(image, bits)) == bits[..|Pixels(image)|]
  {
    var e := ExtractedBits(Embedded(image, bits));
    assert forall i :: 0 <= i < |e| ==> e[i] == bits[i];
  }

  /** The truncated read-back, stated as a proper prefix of the bitstream. */
  lemma ExtractEmbeddedProperPrefix(image: seq<bv8>, bits: seq<Bit>)
    requires |Pixels(image)| < |bits|
    ensures |ExtractedBits(Embedded(image, bits))| < |bits|
    ensures ExtractedBits(Embedded(image, bits)) == bits[..|ExtractedBits(Embedded(image, bits))|]
  {
    ExtractEmbeddedTruncated(image, bits);
  }
}

/** The two entry points of the program, `hide_message_in_image` and
    `extract_message_from_image` (myapplication.py, lines 10-81), with the file reads
    and writes replaced by byte sequences, and the properties that connect them. */
module Steganography {
  import opened BitPacker
  import opened CarrierCodec

  /** Hiding a message: the message bits and the end marker are written into the
      least-significant bits of the pixel bytes; the result is the image to be saved. */
  method HideMessageInImage(image: seq<bv8>, message: seq<Latin1>) returns (output: seq<bv8>)
    ensures output == Embedded(image, PackBits(message))
  {
    var binaryMessage := PackBits(message);
    output := EmbedBits(image, binaryMessage);
  }

  /** Extracting a message: the least-significant bits of the pixel bytes, cut at the
      first end marker and regrouped into characters; None when there is no marker. */
  method ExtractMessageFromImage(image: seq<bv8>) returns (message: Option<seq<Latin1>>)
    ensures message == Unpack(ExtractedBits(image))
    ensures message.None? <==> forall i :: !OccursAt(ExtractedBits(image), Marker, i)
  {
    var binaryMessage := ExtractBits(image);
    var endMarker := Marker;
    var messageEndIndex := Find(binaryMessage, endMarker);
    if messageEndIndex != -1 {
      binaryMessage := binaryMessage[..messageEndIndex];
      message := Some(Regroup(binaryMessage));
    } else {
      message := None;
    }
  }

  /** Round trip: an image with room for the message bits and the marker gives back
      the hidden message, provided the marker does not occur inside the message bits. */
  lemma ExtractHidden(image: seq<bv8>, message: seq<Latin1>)
    requires |image| - HeaderSize >= 8 * |message| + 16
    requires MarkerFree(ToBinary(message))
    ensures Unpack(ExtractedBits(Embedded(image, PackBits(message)))) == Some(message)
  {
    var bits := PackBits(message);
    ExtractEmbeddedFits(image, bits);
    UnpackPack(message, ExtractedBits(image)[|bits|..]);
  }

  /** Truncation: when the pixels cannot hold the whole marker, only a prefix of the
      bitstream is written, and for a marker-free message (the marker does not occur in
      the message bits) extraction finds no message. */
  lemma ExtractTruncated(image: seq<bv8>, message: seq<Latin1>)
    requires |image| - HeaderSize < 8 * |message| + 16
    requires MarkerFree(ToBinary(message))
    ensures Unpack(ExtractedBits(Embedded(image, PackBits(message)))) == None
  {
    var bits := PackBits(message);
    ExtractEmbeddedProperPrefix(image, bits);
    UnpackCutPack(message, ExtractedBits(Embedded(image, bits)));
  }

  /** The script's hide-then-extract sequence on any image and message: the result is
      the decoding of what was written; it is the message when the pixels hold the
      whole bitstream and the marker is absent from the message bits, and None when
      they cannot hold the marker. */
  method HideThenExtract(image: seq<bv8>, message: seq<Latin1>) returns (extracted: Option<seq<Latin1>>)
    ensures extracted == Unpack(ExtractedBits(Embedded(image, PackBits(message))))
    ensures |image| - HeaderSize >= 8 * |message| + 16 && MarkerFree(ToBinary(message)) ==>
      extracted == Some(message)
    ensures |image| - HeaderSize < 8 * |message| + 16 && MarkerFree(ToBinary(message)) ==>
      extracted == None
  {
    var output := HideMessageInImage(image, message);
    extracted := ExtractMessageFromImage(output);
    if MarkerFree(ToBinary(message)) {
      if |image| - HeaderSize >= 8 * |message| + 16 {
        ExtractHidden(image, message);
      } else {
        ExtractTruncated(image, message);
      }
    }
  }

  /** The converse of ExtractHidden: with room for the whole bitstream, a marker inside
      the message bits means the hidden message never comes back. */
  lemma ExtractCollision(image: seq<bv8>, message: seq<Latin1>, i: int)
    requires |image| - HeaderSize >= 8 * |message| + 16
    requires OccursAt(ToBinary(message), Marker, i)
    ensures Unpack(ExtractedBits(Embedded(image, PackBits(message)))) != Some(message)
  {
    var bits := PackBits(message);
    ExtractEmbeddedFits(image, bits);
    CollisionBreaksRoundTrip(message, ExtractedBits(image)[|bits|..], i);
  }

  /** The message "Hi" is the bits 01001000 01101001 followed by the marker. */
  lemma PackHi()
    ensures PackBits(['H', 'i']) ==
      [0, 1, 0, 0, 1, 0, 0, 0, 0, 1, 1, 0, 1, 0, 0, 1] + Marker
  {
    ToBinaryHi();
  }

  lemma ToBinaryHi()
    ensures ToBinary(['H', 'i']) == [0, 1, 0, 0, 1, 0, 0, 0, 0, 1, 1, 0, 1, 0, 0, 1]
  {
    var hi: seq<Latin1> := ['H', 'i'];
    var i: seq<Latin1> := ['i'];
    assert hi[1..] == i;
    assert ToBinary(i) == [0, 1, 1, 0, 1, 0, 0, 1] by {
      assert ToBinary(i) == BitsOf(105, 8) + ToBinary([]);
      BitsOfI();
    }
    assert ToBinary(hi) == BitsOf(72, 8) + ToBinary(i);
    BitsOfH();
  }

  /** "Hi" hidden in an image with at least 32 pixel bytes is extracted as "Hi". */
  lemma ExtractHi(image: seq<bv8>)
    requires |image| >= HeaderSize + 32
    ensures Unpack(ExtractedBits(Embedded(image, PackBits(['H', 'i'])))) == Some(['H', 'i'])
  {
    var hi: seq<Latin1> := ['H', 'i'];
    PackHi();
    var payload := ToBinary(hi);
    assert payload == PackBits(hi)[..16];
    assert payload == [0, 1, 0, 0, 1, 0, 0, 0, 0, 1, 1, 0, 1, 0, 0, 1];
    forall i
      ensures !OccursAt(payload, Marker, i)
    {
      if 0 <= i && i + 16 <= |payload| {
        assert payload[i..i + 16][0] == 0;
      }
    }
    ExtractHidden(image, hi);
  }

  /** Without the marker-free condition the round trip fails: the characters 0xFF 0xFE
      encode to the marker itself, so the decoder stops at bit 0 and returns "". */
  lemma MarkerCollision()
    ensures Unpack(PackBits(['\U{FF}', '\U{FE}'])) == Some([])
  {
    var p := PackBits(['\U{FF}', '\U{FE}']);
    CollisionPayload();
    assert p[0..16] == Marker;
    UnpackAtFirstMarker(p, 0);
  }

  lemma CollisionPayload()
    ensures ToBinary(['\U{FF}', '\U{FE}']) == Marker
  {
    var m: seq<Latin1> := ['\U{FF}', '\U{FE}'];
    assert m[1..] == ['\U{FE}'];
    assert ToBinary(['\U{FE}']) == BitsOf(254, 8) + ToBinary([]);
    assert ToBinary(m) == BitsOf(255, 8) + ToBinary(['\U{FE}']);
    BitsOfFF();
    BitsOfFE();
  }

  lemma BitsOfFF()
    ensures BitsOf(255, 8) == [1, 1, 1, 1, 1, 1, 1, 1]
  {
    BitsOfAllOnes();
  }

  lemma BitsOfFE()
    ensures BitsOf(254, 8) == [1, 1, 1, 1, 1, 1, 1, 0]
  {
    BitsOfAllOnes();
  }

  lemma BitsOfAllOnes()
    ensures BitsOf(127, 7) == [1, 1, 1, 1, 1, 1, 1]
  {
    assert BitsOf(1, 1) == [1];
    assert BitsOf(3, 2) == [1, 1];
    assert BitsOf(7, 3) == [1, 1, 1];
    assert BitsOf(15, 4) == [1, 1, 1, 1];
    assert BitsOf(31, 5) == [1, 1, 1, 1, 1];
    assert BitsOf(63, 6) == [1, 1, 1, 1, 1, 1];
  }

  lemma BitsOfH()
    ensures BitsOf(72, 8) == [0, 1, 0, 0, 1, 0, 0, 0]
  {
    assert BitsOf(0, 1) == [0];
    assert BitsOf(1, 2) == [0, 1];
    assert BitsOf(2, 3) == [0, 1, 0];
    assert BitsOf(4, 4) == [0, 1, 0, 0];
    assert BitsOf(9, 5) == [0, 1, 0, 0, 1];
    assert BitsOf(18, 6) == [0, 1, 0, 0, 1, 0];
    assert BitsOf(36, 7) == [0, 1, 0, 0, 1, 0, 0];
  }

  lemma BitsOfI()
    ensures BitsOf(105, 8) == [0, 1, 1, 0, 1, 0, 0, 1]
  {
    assert BitsOf(0, 1) == [0];
    assert BitsOf(1, 2) == [0, 1];
    assert BitsOf(3, 3) == [0, 1, 1];
    assert BitsOf(6, 4) == [0, 1, 1, 0];
    assert BitsOf(13, 5) == [0, 1, 1, 0, 1];
    assert BitsOf(26, 6) == [0, 1, 1, 0, 1, 0];
    assert BitsOf(52, 7) == [0, 1, 1, 0, 1, 0, 0];
  }
}

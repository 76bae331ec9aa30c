# LSB image steganography, modelled in Dafny

This project models the engine of a small Python program (`myapplication.py`). The
program hides a text message in the pixel bytes of an uncompressed bitmap image and
reads it back. It uses least-significant-bit substitution:

- **Bit packer** (`bitpacker.dfy`, module `BitPacker`). `to_binary` expands each
  character into 8 bits, most significant bit first. The embedder appends the end
  marker `1111111111111110`. The extractor cuts the bitstream at the first
  occurrence of the marker (`str.find`, with -1 meaning "not found"). It then turns
  every started group of 8 bits back into a character with `chr(int(group, 2))`.
- **Carrier codec** (`carrier.dfy`, module `CarrierCodec`). The first 54 bytes of the
  image are the header and are never changed. The embedding loop runs over a working
  copy of the pixel bytes, held in an `array<bv8>`. It writes bit i of the bitstream
  into byte i as `(b & 0xFE) | bit`, and stops when the bits or the pixels run out.
  The extraction loop collects the least-significant bit of every pixel byte. Both
  loops are methods, each proved equal to a specification function (`Embedded`,
  `ExtractedBits`). The lemmas are stated about those functions.
- **Entry points** (`steganography.dfy`, module `Steganography`).
  `hide_message_in_image` and `extract_message_from_image` take the image as a byte
  sequence instead of a file path; hiding returns the bytes that would be written. The module also holds the end-to-end properties:
  the round trip, truncation, the worked example "Hi", and a marker collision.

Representation: a bit is an `int` in 0..1 (the program's characters '0'/'1'). An image
byte is a `bv8`. A message is a sequence of characters whose codes are below 256.
`extract_message_from_image`'s `None` is `Option.None`.

Two behaviours of the program are worth noting:
- A trailing group of fewer than 8 bits before the marker is converted as a short
  binary number, not dropped (`RegroupAt`).
- An image shorter than 54 bytes raises no error. The header is then the whole buffer
  and there are no pixel bytes, so hiding returns the image unchanged and extraction
  reads no bits. There is also no capacity check: a bitstream longer than the pixel
  region is silently truncated (`ExtractEmbeddedTruncated`, `ExtractTruncated`).

Given 8·len+16 pixel bytes, the round trip holds exactly when the 16-bit marker does
not occur inside the message's own bits (with fewer pixel bytes a marker-free message
comes back as None, `ExtractTruncated`). Windows that straddle the end of the message cannot match, because
the marker begins with fifteen 1s and ends with a 0 (`UnpackPack`). Conversely, for every
message whose bits contain the marker, decoding stops at or before that occurrence and
returns fewer characters (`CollisionBreaksRoundTrip` on bitstreams, `ExtractCollision`
on images). `MarkerCollision` is a concrete
instance: the message `ÿþ` (codes 0xFF, 0xFE) encodes to the marker itself, so it
decodes to the empty string.

## Model

| member | source | states |
|---|---|---|
| `BitPacker.BitsOf` | myapplication.py:7 | `format(v, '08b')` yields exactly n bits (8 for a character) |
| `BitPacker.BitsOfAt` | myapplication.py:7 | bit k of the n-bit expansion of v is the digit of weight 2^(n-1-k), i.e. most significant bit first |
| `BitPacker.BinToInt` | myapplication.py:77 | `int(s, 2)` of an s-digit binary string is below 2 to the power of its length |
| `BitPacker.BinToIntBitsOf` | myapplication.py:77 | `int(format(v, '0nb'), 2) == v` for every v < 2^n |
| `BitPacker.BitsOfBinToInt` | myapplication.py:77 | `format(int(s, 2), '0nb') == s` for every n-bit string s |
| `BitPacker.ToBinary` | myapplication.py:1-7 | `to_binary` yields 8 bits per character |
| `BitPacker.ToBinaryAt` | myapplication.py:7 | bit 8i+k of `to_binary(m)` is bit k, most significant first, of the code of m[i] |
| `BitPacker.PackBits` | myapplication.py:19 | the embedded bitstream is 8 bits per character plus the 16 marker bits |
| `BitPacker.PackEmpty` | myapplication.py:19 | the bitstream for the empty message is the 16-bit marker alone |
| `BitPacker.FindFrom` | myapplication.py:72 | the search from a start index returns the first occurrence at or after it, or -1 exactly when there is none |
| `BitPacker.Find` | myapplication.py:72 | `find` returns -1 iff the marker occurs nowhere; otherwise an index where it occurs with no earlier occurrence |
| `BitPacker.GroupChar` | myapplication.py:77 | `chr(int(group, 2))` of at most 8 bits is a character whose code is the group's value |
| `BitPacker.Regroup` | myapplication.py:77 | `range(0, len, 8)` yields one character per started group of 8 bits, ceil(len/8) in all |
| `BitPacker.RegroupAt` | myapplication.py:77 | character j is the value of bits 8j .. min(8j+8, len); a short trailing group is converted, not dropped |
| `BitPacker.Unpack` | myapplication.py:71-81 | decoding yields None exactly when the marker does not occur in the bits |
| `BitPacker.UnpackAtFirstMarker` | myapplication.py:72-78 | when the first marker occurrence is at k, decoding regroups exactly the bits before k |
| `BitPacker.UnpackIgnoresTail` | myapplication.py:72-75 | bits after the first marker have no effect on the decoded message |
| `BitPacker.RegroupToBinary` | myapplication.py:77 | regrouping undoes `to_binary` |
| `BitPacker.ToBinaryRegroup` | myapplication.py:77 | `to_binary` undoes regrouping when the bit count is a multiple of 8 |
| `BitPacker.MarkerRun` | myapplication.py:19 | the marker's first fifteen bits are 1 |
| `BitPacker.NoMarkerInsidePayload` | myapplication.py:19 | no marker starts inside a marker-free payload followed by the marker, straddling windows included |
| `BitPacker.UnpackPack` | myapplication.py:71-78 | decoding a marker-free message's bits plus marker plus any tail gives the message back |
| `BitPacker.UnpackCutPack` | myapplication.py:74-81 | a packed bitstream of a marker-free message (the marker does not occur in the message bits), cut before the end of its marker, decodes to None |
| `BitPacker.CollisionBreaksRoundTrip` | myapplication.py:72-78 | if the marker occurs anywhere inside a message's bits, decoding its packed bits (plus any tail) does not give the message back |
| `CarrierCodec.Lsb` | myapplication.py:68 | `byte & 1` is the parity of the byte |
| `CarrierCodec.Header` | myapplication.py:43 | the header written back is the first min(len, 54) bytes of the image, unchanged |
| `CarrierCodec.SetLsb` | myapplication.py:36 | masking with 0xFE and or-ing in the bit keeps the upper 7 bits of b and has LSB equal to bit |
| `CarrierCodec.Pixels` | myapplication.py:29-30 | the pixel region has length len(image) - 54, or 0 when the image is shorter than the header, and pixel i is image byte 54+i |
| `CarrierCodec.Embedded` | myapplication.py:29-44 | the output has the input's length, the same first 54 bytes, the same upper 7 bits everywhere, LSB of pixel i equal to bit i while bits remain, and the input's bytes past the bitstream |
| `CarrierCodec.ExtractedBits` | myapplication.py:61-68 | extraction yields len(image) - 54 bits (0 if shorter), bit i being the LSB of byte 54+i |
| `CarrierCodec.EmbedBits` | myapplication.py:25-44 | the in-place loop over the pixel copy, with its early break, produces exactly `Embedded(image, bits)` |
| `CarrierCodec.ExtractBits` | myapplication.py:62-68 | the appending loop produces exactly `ExtractedBits(image)` |
| `CarrierCodec.ExtractEmbeddedFits` | myapplication.py:33-39 | when the bitstream fits, extraction after embedding yields the bitstream followed by the original LSBs |
| `CarrierCodec.ExtractEmbeddedTruncated` | myapplication.py:33-39 | when the bitstream is longer than the pixels, extraction after embedding yields only its first pixel-count bits |
| `Steganography.HideMessageInImage` | myapplication.py:10-44 | the written image is `Embedded(image, PackBits(message))`, the message bits and the marker stamped into the pixel LSBs |
| `Steganography.ExtractMessageFromImage` | myapplication.py:49-81 | the result is the decoding of the image's pixel LSBs, and None exactly when they hold no marker |
| `Steganography.ExtractHidden` | myapplication.py:19-78 | round trip: with 8·len(msg)+16 pixel bytes and a marker-free payload, extracting from the hidden image gives the message |
| `Steganography.ExtractTruncated` | myapplication.py:33-81 | for a marker-free message (the marker does not occur in the message bits), with too few pixel bytes for the marker, extraction from the hidden image returns None |
| `Steganography.HideThenExtract` | myapplication.py:89-95 | hiding then extracting any message in any image with the two methods yields the decoding of the written pixel LSBs; that is the message when the pixels hold 8·len+16 bits and the marker is absent from the message bits, and None when a marker-free message does not fit |
| `Steganography.ExtractCollision` | myapplication.py:72-78 | with room for the whole bitstream, a message whose bits contain the marker is never extracted back |
| `Steganography.PackHi` | myapplication.py:7-19 | "Hi" packs to 01001000 01101001 followed by the marker |
| `Steganography.ExtractHi` | myapplication.py:91-95 | "Hi" hidden in an image with at least 32 pixel bytes is extracted as "Hi" |
| `Steganography.MarkerCollision` | myapplication.py:72-78 | the message 0xFF 0xFE packs to two markers and decodes to the empty string |

## Left out

- File reading and writing (`open`, `read`, `write`): the image is an in-memory byte sequence, and the written file is the returned header followed by the pixels.
- The `print` calls and the module-level script with `input()` and fixed paths. `HideThenExtract` stands for the script's hide-then-extract sequence on any message and image, the typed message and the file contents becoming its parameters.
- Characters with codes of 256 or more: `format(ord(c), '08b')` then emits more than 8 bits and the 8-bit regrouping no longer inverts it. Messages are restricted to codes 0..255.
- The Unicode behaviour of `chr` beyond codes 0..255: every group the decoder converts has at most 8 bits, so its value is always below 256.

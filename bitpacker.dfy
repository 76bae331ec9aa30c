/** The bit packer: expanding a message into a bitstream framed by a 16-bit
    end marker, and turning a bitstream back into a message (myapplication.py,
    `to_binary`, line 19 and lines 71-81). */
module BitPacker {

  /** One bit of the bitstream; the program keeps them as the characters '0' and '1'. */
  type Bit = x: int | 0 <= x < 2

  /** A character whose code fits in one byte (`ord(c) < 256`). */
  type Latin1 = c: char | c as int < 256 witness '\0'

  datatype Option<T> = None | Some(value: T)

  function Pow2(n: nat): (r: nat)
    ensures r >= 1
  {
    if n == 0 then 1 else 2 * Pow2(n - 1)
  }

  function Min(a: int, b: int): (r: int) { if a <= b then a else b }

  /** `format(v, '0nb')`: the low n bits of v, most significant bit first. The program only
      applies it to v < 2^n (a character code with n = 8), where nothing is dropped. */
  function BitsOf(v: nat, n: nat): (r: seq<Bit>)
    ensures |r| == n
  {
    if n == 0 then [] else BitsOf(v / 2, n - 1) + [v % 2]
  }

  /** `int(s, 2)`: the number a string of binary digits denotes, first digit most significant. */
  function BinToInt(s: seq<Bit>): (r: nat)
    ensures r < Pow2(|s|)
  {
    if s == [] then 0 else 2 * BinToInt(s[..|s| - 1]) + s[|s| - 1]
  }

  /** `to_binary`: eight bits per character, most significant bit first, concatenated. */
  function ToBinary(message: seq<Latin1>): (r: seq<Bit>)
    ensures |r| == 8 * |message|
  {
    if message == [] then [] else BitsOf(message[0] as int, 8) + ToBinary(message[1..])
  }

  /** The end-of-message marker `1111111111111110`. */
  const Marker: seq<Bit> := [1, 1, 1, 1, 1, 1, 1, 1, 1, 1, 1, 1, 1, 1, 1, 0]

  /** The bitstream the embedder writes: the message bits followed by the marker. */
  function PackBits(message: seq<Latin1>): (r: seq<Bit>)
    ensures |r| == 8 * |message| + 16
  {
    ToBinary(message) + Marker
  }

  /** `pat` occurs in `s` starting at index i. */
  predicate OccursAt(s: seq<Bit>, pat: seq<Bit>, i: int)
  {
    0 <= i && i + |pat| <= |s| && s[i..i + |pat|] == pat
  }

  /** The first occurrence of `pat` in `s` at or after `from`, or -1. */
  function FindFrom(s: seq<Bit>, pat: seq<Bit>, from: nat): (r: int)
    ensures r == -1 || (from <= r && OccursAt(s, pat, r))
    ensures r == -1 ==> forall i :: from <= i ==> !OccursAt(s, pat, i)
    ensures r != -1 ==> forall i :: from <= i < r ==> !OccursAt(s, pat, i)
    decreases |s| - from
  {
    if from + |pat| > |s| then -1
    else if s[from..from + |pat|] == pat then from
    else FindFrom(s, pat, from + 1)
  }

  /** `str.find`: the index of the first occurrence of `pat` in `s`, or -1 when there is none. */
  function Find(s: seq<Bit>, pat: seq<Bit>): (r: int)
    ensures r == -1 <==> forall i :: !OccursAt(s, pat, i)
    ensures r != -1 ==> OccursAt(s, pat, r) && forall i :: 0 <= i < r ==> !OccursAt(s, pat, i)
  {
    FindFrom(s, pat, 0)
  }

  lemma BinToIntByte(s: seq<Bit>)
    requires |s| <= 8
    ensures BinToInt(s) < 256
  {
    Pow2Monotone(|s|, 8);
  }

  lemma {:induction false} Pow2Monotone(m: nat, n: nat)
    requires m <= n
    ensures Pow2(m) <= Pow2(n)
  {
    if m < n { Pow2Monotone(m, n - 1); }
  }

  /** The character a group of at most eight bits denotes: `chr(int(group, 2))`. */
  function GroupChar(group: seq<Bit>): (c: Latin1)
    requires |group| <= 8
    ensures c as int == BinToInt(group)
  {
    BinToIntByte(group);
    BinToInt(group) as char
  }

  /** The regrouping `chr(int(bits[i:i+8], 2)) for i in range(0, len(bits), 8)`:
      one character per started group of eight bits (see RegroupAt). */
  function Regroup(bits: seq<Bit>): (r: seq<Latin1>)
    ensures |r| == (|bits| + 7) / 8
  {
    if bits == [] then []
    else
      var n := Min(8, |bits|);
      [GroupChar(bits[..n])] + Regroup(bits[n..])
  }

  /** Character j of the regrouped message is the number denoted by bits 8j .. 8j+8;
      a trailing group shorter than eight bits is converted, not dropped. */
  lemma {:induction false} RegroupAt(bits: seq<Bit>, j: nat)
    requires j < |Regroup(bits)|
    ensures Regroup(bits)[j] as int == BinToInt(bits[8 * j..Min(8 * j + 8, |bits|)])
  {
    if j == 0 {
      RegroupHead(bits);
    } else {
      var rest := bits[8..];
      RegroupTail(bits, j);
      RegroupAt(rest, j - 1);
      var hi := Min(8 * j + 8, |bits|);
      assert Min(8 * (j - 1) + 8, |rest|) == hi - 8;
      assert rest[8 * (j - 1)..hi - 8] == bits[8 * j..hi];
    }
  }

  lemma RegroupHead(bits: seq<Bit>)
    requires bits != []
    ensures Regroup(bits)[0] as int == BinToInt(bits[0..Min(8, |bits|)])
  {
    assert Regroup(bits)[0] == GroupChar(bits[..Min(8, |bits|)]);
  }

  lemma RegroupTail(bits: seq<Bit>, j: nat)
    requires 0 < j < |Regroup(bits)|
    ensures |bits| > 8 * j && j - 1 < |Regroup(bits[8..])|
    ensures Regroup(bits)[j] == Regroup(bits[8..])[j - 1]
  {
  }

  /** Decoding a bitstream: the message made of the bits before the first marker,
      or None when the marker does not occur. */
  function Unpack(bits: seq<Bit>): (r: Option<seq<Latin1>>)
    ensures r.None? <==> forall i :: !OccursAt(bits, Marker, i)
  {
    var k := Find(bits, Marker);
    if k != -1 then Some(Regroup(bits[..k])) else None
  }

  // ---------------------------------------------------------------------------
  // Properties of the bit expansion

  /** Bit k of the n-bit representation of v is the binary digit of weight 2^(n-1-k). */
  lemma {:induction false} BitsOfAt(v: nat, n: nat, k: nat)
    requires k < n
    ensures BitsOf(v, n)[k] == (v / Pow2(n - 1 - k)) % 2
  {
    if k < n - 1 {
      BitsOfAt(v / 2, n - 1, k);
      HalveThenDivide(v, n - 2 - k);
    }
  }

  lemma HalveThenDivide(v: nat, m: nat)
    ensures (v / 2) / Pow2(m) == v / Pow2(m + 1)
  {
    var d := Pow2(m);
    var q := (v / 2) / d;
    var r := (v / 2) % d;
    assert v / 2 == q * d + r;
    assert v == q * (2 * d) + (2 * r + v % 2);
    DivideUnique(v, 2 * d, q, 2 * r + v % 2);
  }

  lemma DivideUnique(v: nat, d: nat, q: nat, r: nat)
    requires 0 <= r < d && v == q * d + r
    ensures v / d == q
  {
    var q' := v / d;
    if q' > q {
      MultiplyMonotone(q + 1, q', d);
      assert false;
    } else if q' < q {
      MultiplyMonotone(q' + 1, q, d);
      assert false;
    }
  }

  lemma MultiplyMonotone(a: nat, b: nat, d: nat)
    requires a <= b
    ensures a * d <= b * d
  {
  }

  /** Decoding the n-bit representation of a number below 2^n gives the number back. */
  lemma {:induction false} BinToIntBitsOf(v: nat, n: nat)
    requires v < Pow2(n)
    ensures BinToInt(BitsOf(v, n)) == v
  {
    if n > 0 {
      var s := BitsOf(v, n);
      assert s[..n - 1] == BitsOf(v / 2, n - 1);
      assert v / 2 < Pow2(n - 1);
      BinToIntBitsOf(v / 2, n - 1);
    }
  }

  /** Re-encoding the number a bit string denotes, at the string's width, gives the string back. */
  lemma {:induction false} BitsOfBinToInt(s: seq<Bit>)
    ensures BitsOf(BinToInt(s), |s|) == s
  {
    if s != [] {
      var init := s[..|s| - 1];
      BitsOfBinToInt(init);
      assert s == init + [s[|s| - 1]];
    }
  }

  /** Character i of the message occupies bits 8i .. 8i+8 of `to_binary`, most significant first. */
  lemma {:induction false} ToBinaryAt(message: seq<Latin1>, i: nat, k: nat)
    requires i < |message| && k < 8
    ensures ToBinary(message)[8 * i + k] == (message[i] as int / Pow2(7 - k)) % 2
  {
    if i == 0 {
      BitsOfAt(message[0] as int, 8, k);
    } else {
      ToBinaryAt(message[1..], i - 1, k);
    }
  }

  /** The empty message is framed as the marker alone. */
  lemma PackEmpty()
    ensures PackBits([]) == Marker
    ensures |PackBits([])| == 16
  {
  }

  // ---------------------------------------------------------------------------
  // Properties of the regrouping and of the decoder

  /** Regrouping undoes `to_binary`. */
  lemma {:induction false} RegroupToBinary(message: seq<Latin1>)
    ensures Regroup(ToBinary(message)) == message
  {
    if message != [] {
      var head := BitsOf(message[0] as int, 8);
      var tail := ToBinary(message[1..]);
      assert (head + tail)[..8] == head;
      assert (head + tail)[8..] == tail;
      BinToIntBitsOf(message[0] as int, 8);
      RegroupToBinary(message[1..]);
    }
  }

  /** `to_binary` undoes regrouping when the bit count is a multiple of eight. */
  lemma {:induction false} ToBinaryRegroup(bits: seq<Bit>)
    requires |bits| % 8 == 0
    ensures ToBinary(Regroup(bits)) == bits
  {
    if bits != [] {
      var r := Regroup(bits);
      assert r[1..] == Regroup(bits[8..]);
      BitsOfBinToInt(bits[..8]);
      ToBinaryRegroup(bits[8..]);
      assert bits == bits[..8] + bits[8..];
    }
  }

  /** The decoder uses exactly the bits before the first occurrence of the marker. */
  lemma UnpackAtFirstMarker(bits: seq<Bit>, k: nat)
    requires OccursAt(bits, Marker, k)
    requires forall i :: 0 <= i < k ==> !OccursAt(bits, Marker, i)
    ensures Unpack(bits) == Some(Regroup(bits[..k]))
  {
  }

  /** Bits after the first marker do not affect the decoded message. */
  lemma UnpackIgnoresTail(bits: seq<Bit>, k: nat, tail: seq<Bit>)
    requires OccursAt(bits, Marker, k)
    requires forall i :: 0 <= i < k ==> !OccursAt(bits, Marker, i)
    ensures Unpack(bits[..k + 16] + tail) == Unpack(bits)
  {
    var s := bits[..k + 16] + tail;
    assert s[..k + 16] == bits[..k + 16];
    assert OccursAt(s, Marker, k) by { assert s[k..k + 16] == bits[k..k + 16]; }
    forall i | 0 <= i < k
      ensures !OccursAt(s, Marker, i)
    {
      assert !OccursAt(bits, Marker, i);
      assert s[i..i + 16] == bits[i..i + 16];
    }
    UnpackAtFirstMarker(s, k);
    UnpackAtFirstMarker(bits, k);
    assert s[..k] == bits[..k];
  }

  /** The marker opens with a run of fifteen 1s. */
  lemma MarkerRun(t: int)
    requires 0 <= t < 15
    ensures Marker[t] == 1
  {
  }

  /** A payload bit string in which the marker does not occur. */
  ghost predicate MarkerFree(bits: seq<Bit>)
  {
    forall i :: !OccursAt(bits, Marker, i)
  }

  /** The marker cannot start inside the payload of a packed message whose payload is
      marker-free: a window that straddles the end of the payload would need its last
      bit to be 0, but that bit lies in the marker's run of fifteen 1s. */
  lemma NoMarkerInsidePayload(payload: seq<Bit>, s: seq<Bit>, j: int)
    requires MarkerFree(payload)
    requires 0 <= j < |payload| && j + 16 <= |s|
    requires s[j..j + 16] == (payload + Marker)[j..j + 16]
    ensures !OccursAt(s, Marker, j)
  {
    if j + 16 <= |payload| {
      WindowInPayload(payload, j);
      assert !OccursAt(payload, Marker, j);
    } else {
      WindowStraddlesEnd(payload, j);
    }
  }

  /** A window lying wholly inside the payload reads the same in the packed bits. */
  lemma WindowInPayload(payload: seq<Bit>, j: int)
    requires 0 <= j && j + 16 <= |payload|
    ensures (payload + Marker)[j..j + 16] == payload[j..j + 16]
  {
  }

  /** A window that starts inside the payload and ends inside the marker ends with a 1. */
  lemma WindowStraddlesEnd(payload: seq<Bit>, j: int)
    requires 0 <= j < |payload| < j + 16
    ensures (payload + Marker)[j..j + 16][15] == 1
  {
    MarkerRun(j + 15 - |payload|);
  }

  /** Packing then decoding gives the message back, whatever follows the packed bits. */
  lemma UnpackPack(message: seq<Latin1>, tail: seq<Bit>)
    requires MarkerFree(ToBinary(message))
    ensures Unpack(PackBits(message) + tail) == Some(message)
  {
    var p := PackBits(message);
    var s := p + tail;
    var n := 8 * |message|;
    assert s[..|p|] == p;
    assert OccursAt(s, Marker, n) by { assert s[n..n + 16] == p[n..n + 16] == Marker; }
    forall i | 0 <= i < n
      ensures !OccursAt(s, Marker, i)
    {
      assert s[i..i + 16] == p[i..i + 16];
      NoMarkerInsidePayload(ToBinary(message), s, i);
    }
    UnpackAtFirstMarker(s, n);
    assert s[..n] == ToBinary(message);
    RegroupToBinary(message);
  }

  /** A packed marker-free message (the marker does not occur in the message bits) cut
      before the end of its marker contains no marker, so the decoder reports no message. */
  lemma UnpackCutPack(message: seq<Latin1>, s: seq<Bit>)
    requires MarkerFree(ToBinary(message))
    requires |s| < |PackBits(message)| && s == PackBits(message)[..|s|]
    ensures Unpack(s) == None
  {
    forall j | 0 <= j && j + 16 <= |s|
      ensures !OccursAt(s, Marker, j)
    {
      assert s[j..j + 16] == PackBits(message)[j..j + 16];
      NoMarkerInsidePayload(ToBinary(message), s, j);
    }
  }

  /** The marker-free condition of UnpackPack cannot be dropped: when the marker occurs
      inside a message's own bits, the decoder stops at or before that occurrence and
      returns fewer characters than the message has. */
  lemma CollisionBreaksRoundTrip(message: seq<Latin1>, tail: seq<Bit>, i: int)
    requires OccursAt(ToBinary(message), Marker, i)
    ensures Unpack(PackBits(message) + tail) != Some(message)
  {
    var s := PackBits(message) + tail;
    assert s[i..i + 16] == ToBinary(message)[i..i + 16];
    assert OccursAt(s, Marker, i);
    var k := Find(s, Marker);
    assert k != -1 && k <= i;
    assert |Regroup(s[..k])| < |message|;
  }
}

/**
 * The DER identifier-and-length decoder (`decodeTag`, `tlvTryDecode`).
 *
 * `tlvTryDecode` looks at the first bytes of a buffer that is still arriving
 * and reports one of three outcomes: the header is complete (with the decoded
 * length), more bytes are needed, or the header can never become valid. Only
 * tag number 4 (OCTET STRING) is accepted, and a long-form length may use at
 * most four bytes.
 *
 * `Expected` states the outcome table of the code as written and
 * `TlvTryDecode` is proved to follow it. The code departs from the length
 * octets of ITU-T X.690 (sections 8.1.3.4 to 8.1.3.6): its long form reads the
 * length starting at the length-form byte itself and counts that byte as one of
 * the length bytes, and it takes the indefinite form 0x80 as length 0.
 * `DecodeHeader` is the decoder those sections call for; it is proved to
 * invert the header encoder `EncodeHeader`.
 */
module Tlv {
  import opened Bytes

  /** `NUMBER_OCTET_STRING` */
  const NumberOctetString: uint8 := 0x04

  /** Most length bytes a long-form length may announce. */
  const MaxLengthBytes: uint8 := 4

  /** The three fields of an identifier byte, each left in place as `decodeTag` masks them. */
  datatype Tag = Tag(cls: uint8, constructed: uint8, number: uint8)

  /**
   * Outcome of `tlvTryDecode`. `Complete` carries what is stored in
   * `*fieldLenght`, which the C function writes on this path only.
   */
  datatype Outcome = Complete(length: uint32) | Incomplete | Invalid
  {
    /** The C function's return value. */
    predicate Returned() { Complete? }

    /** What the C function stores in `*valid`. */
    predicate ValidFlag() { !Invalid? }
  }

  /**
   * `decodeTag`: class is bits 7-6 (mask 0xc0), the constructed flag bit 5
   * (mask 0x20), the tag number bits 4-0 (mask 0x1f). The masks are written as
   * division and remainder on the byte's value. The three fields split the byte:
   * they add up to it and each lies in its own bits.
   */
  function DecodeTag(b: uint8): (t: Tag)
    ensures t.cls + t.constructed + t.number == b
    ensures t.cls % 64 == 0 && t.cls <= 0xC0
    ensures t.constructed == 0 || t.constructed == 0x20
    ensures t.number < 32
  {
    Tag(b / 64 * 64, b / 32 % 2 * 32, b % 32)
  }

  /** The fields of `DecodeTag` are the only such split of a byte. */
  lemma DecodeTagUnique(b: uint8, t: Tag)
    requires t.cls + t.constructed + t.number == b
    requires t.cls % 64 == 0
    requires t.constructed == 0 || t.constructed == 0x20
    requires t.number < 32
    ensures t == DecodeTag(b)
  {
    var d := DecodeTag(b);
    assert t.number == b % 32;
    assert t.constructed == d.constructed;
  }

  /** The value of at most four length bytes, as the `uint32_t` the C code accumulates. */
  function LengthValue(bytes: seq<uint8>): (n: uint32)
    requires |bytes| <= MaxLengthBytes as int
    ensures n as int == BigEndian(bytes)
  {
    BigEndianBound(bytes);
    PowMonotone(256, |bytes|, 4);
    BigEndian(bytes)
  }

  // ---------------------------------------------------------------------------
  // The code as written
  // ---------------------------------------------------------------------------

  /**
   * The outcome table of `tlvTryDecode`: `buffer` holds the caller's bytes and
   * `bufferLength` of them have arrived. In the long form the `count` length
   * bytes are read starting at `buffer[1]`, the length-form byte itself.
   */
  function Expected(buffer: seq<uint8>, bufferLength: uint32): Outcome
    requires 1 <= |buffer| && bufferLength as int <= |buffer|
  {
    if DecodeTag(buffer[0]).number != NumberOctetString then Invalid
    else if bufferLength < 2 then Incomplete
    else if buffer[1] < 0x80 then Complete(buffer[1])
    else
      var count := buffer[1] - 0x80;
      if count > MaxLengthBytes then Invalid
      else if count > bufferLength - 1 then Incomplete
      else Complete(LengthValue(buffer[1..1 + count]))
  }

  /** One step of the accumulating loop: shifting in a byte below four bytes stays within 32 bits. */
  lemma AccumulateStep(prefix: seq<uint8>, b: uint8)
    requires |prefix| < MaxLengthBytes as int
    ensures BigEndian(prefix) * 256 + b == BigEndian(prefix + [b]) < 0x1_0000_0000
  {
    BigEndianAppend(prefix, b);
    BigEndianBound(prefix + [b]);
    PowMonotone(256, |prefix| + 1, 4);
  }

  /**
   * `tlvTryDecode`. The pointer step `buffer++` is the index `at`; the test
   * `byte & 0x80` is `byte >= 0x80` and `byte & 0x7f` is `byte % 0x80`; and
   * `(length << 8) | byte` is `length * 256 + byte`, the same value because
   * `length` is below 2^24 before each shift.
   */
  method TlvTryDecode(buffer: seq<uint8>, bufferLength: uint32) returns (o: Outcome)
    requires 1 <= |buffer| && bufferLength as int <= |buffer|
    ensures o == Expected(buffer, bufferLength)
  {
    var tag := DecodeTag(buffer[0]);
    if tag.number != NumberOctetString {
      return Invalid;
    }
    if bufferLength < 2 {
      return Incomplete;
    }
    var remaining: uint32 := bufferLength - 1;
    var at := 1;
    var length: uint32;
    var byte := buffer[at];
    if byte >= 0x80 {
      var count: uint8 := byte % 0x80;
      if count > MaxLengthBytes {
        return Invalid;
      }
      if count as int > remaining as int {
        return Incomplete;
      }
      length := 0;
      var i: uint8 := 0;
      while i < count
        invariant i <= count
        invariant length as int == BigEndian(buffer[at..at + i])
      {
        AccumulateStep(buffer[at..at + i], buffer[at + i]);
        assert buffer[at..at + i + 1] == buffer[at..at + i] + [buffer[at + i]];
        length := length * 256 + buffer[at + i];
        i := i + 1;
      }
    } else {
      length := byte;
    }
    return Complete(length);
  }

  /** The outcome table, stated on the bytes themselves, with what it means for the return value and `*valid`. */
  lemma OutcomeTable(buffer: seq<uint8>, bufferLength: uint32)
    requires 1 <= |buffer| && bufferLength as int <= |buffer|
    ensures buffer[0] % 32 != 4 ==> Expected(buffer, bufferLength) == Invalid
    ensures buffer[0] % 32 == 4 && bufferLength < 2 ==> Expected(buffer, bufferLength) == Incomplete
    ensures buffer[0] % 32 == 4 && bufferLength >= 2 ==>
              (Expected(buffer, bufferLength) == Invalid <==> buffer[1] > 0x84)
    ensures buffer[0] % 32 == 4 && bufferLength >= 2 ==>
              (Expected(buffer, bufferLength) == Incomplete <==> 0x80 <= buffer[1] <= 0x84 && buffer[1] - 0x80 >= bufferLength)
    ensures Expected(buffer, bufferLength).Returned() ==> Expected(buffer, bufferLength).ValidFlag()
    ensures !Expected(buffer, bufferLength).ValidFlag() <==> (buffer[0] % 32 != 4 || (bufferLength >= 2 && buffer[1] > 0x84))
  {
  }

  /** Only the five tag-number bits of the identifier byte matter; class and constructed bits are ignored. */
  lemma TagClassIgnored(buffer: seq<uint8>, bufferLength: uint32, b: uint8)
    requires 1 <= |buffer| && bufferLength as int <= |buffer|
    requires b % 32 == buffer[0] % 32
    ensures Expected(buffer[0 := b], bufferLength) == Expected(buffer, bufferLength)
  {
    var other := buffer[0 := b];
    if 2 <= bufferLength && 0x80 <= buffer[1] <= 0x84 && buffer[1] - 0x80 <= bufferLength - 1 {
      assert other[1..1 + buffer[1] - 0x80] == buffer[1..1 + buffer[1] - 0x80];
    }
  }

  /**
   * No byte at or beyond `bufferLength` is looked at (apart from the tag
   * byte, which is read even when `bufferLength` is 0).
   */
  lemma ReadsOnlyAvailable(a: seq<uint8>, b: seq<uint8>, bufferLength: uint32)
    requires 1 <= |a| && bufferLength as int <= |a|
    requires 1 <= |b| && bufferLength as int <= |b|
    requires a[0] == b[0]
    requires a[..bufferLength] == b[..bufferLength]
    ensures Expected(a, bufferLength) == Expected(b, bufferLength)
  {
    if 2 <= bufferLength {
      assert a[1] == a[..bufferLength][1] == b[..bufferLength][1] == b[1];
      if 0x80 <= a[1] <= 0x84 && a[1] - 0x80 <= bufferLength - 1 {
        var count := a[1] - 0x80;
        forall k | 1 <= k < 1 + count
          ensures a[k] == b[k]
        {
          assert a[k] == a[..bufferLength][k];
        }
        assert a[1..1 + count] == b[1..1 + count];
      }
    }
  }

  /**
   * Re-invoking with more bytes of the same stream: a complete or invalid
   * answer never changes, so a caller may stop at the first one.
   */
  lemma StreamingStable(buffer: seq<uint8>, n: uint32, m: uint32)
    requires 1 <= |buffer| && n <= m && m as int <= |buffer|
    requires Expected(buffer, n) != Incomplete
    ensures Expected(buffer, m) == Expected(buffer, n)
  {
  }

  /**
   * An incomplete answer is given exactly while fewer bytes have arrived than
   * the header needs: two, or, in the long form, one more than the count.
   */
  lemma IncompleteUntilHeaderArrives(buffer: seq<uint8>, n: uint32)
    requires 2 <= |buffer| && n as int <= |buffer|
    requires buffer[0] % 32 == 4
    ensures Expected(buffer, n) == Incomplete <==>
              n < 2 || (0x80 <= buffer[1] <= 0x84 && n as int < buffer[1] - 0x80 + 1)
  {
  }

  /** The decoded length: the short form is the byte itself; the long form is below 2^32. */
  lemma DecodedLength(buffer: seq<uint8>, n: uint32)
    requires 1 <= |buffer| && n as int <= |buffer|
    requires Expected(buffer, n).Complete?
    ensures 2 <= n
    ensures buffer[1] < 0x80 ==> Expected(buffer, n).length == buffer[1] <= 127
    ensures buffer[1] >= 0x80 ==> 1 + buffer[1] - 0x80 <= n as int
    ensures buffer[1] >= 0x80 ==> Expected(buffer, n).length as int == BigEndian(buffer[1..1 + buffer[1] - 0x80])
    ensures buffer[1] == 0x80 ==> Expected(buffer, n).length == 0
  {
  }

  // Examples: the decoder on short-form, wrong-tag, one-byte and over-long headers,
  // and the three places where the code departs from X.690.

  lemma ShortFormExample()
    ensures Expected([0x04, 0x05], 2) == Complete(5)
    ensures Expected([0x02, 0x05], 2) == Invalid
    ensures Expected([0x04], 1) == Incomplete
    ensures Expected([0x04, 0x85, 0x01, 0x02, 0x03, 0x04, 0x05], 2) == Invalid
  {
  }

  /** [0x04, 0x81, 0x80] holds length 128 in X.690; the code reads the form byte 0x81 as the length. */
  lemma LongFormOffByOne()
    ensures Expected([0x04, 0x81, 0x80], 3) == Complete(129)
    ensures Expected([0x04, 0x81], 2) == Complete(129)
  {
    assert [0x04, 0x81, 0x80][1..2] == [0x81];
    assert [0x04, 0x81][1..2] == [0x81];
    assert BigEndian([0x81]) == BigEndian([]) * 256 + 0x81;
  }

  /** The indefinite form 0x80, which DER forbids, is taken as length 0. */
  lemma IndefiniteFormAccepted()
    ensures Expected([0x04, 0x80], 2) == Complete(0)
  {
    assert [0x04, 0x80][1..1] == [];
  }

  // ---------------------------------------------------------------------------
  // The length octets of ITU-T X.690, sections 8.1.3.4 to 8.1.3.6
  // ---------------------------------------------------------------------------

  /**
   * Header of an OCTET STRING of `length` bytes: identifier 0x04, then the
   * short form for lengths below 128, else the long form with the fewest
   * length bytes (section 8.1.3.5 and the minimal-length rule of DER).
   */
  function EncodeHeader(length: uint32): seq<uint8>
  {
    var bytes := MinimalBytes(length);
    BigEndianBound(MinimalBytes(length));
    MinimalBytesLength(length, 4);
    if length < 0x80 then [NumberOctetString, length]
    else [NumberOctetString, 0x80 + |bytes|] + bytes
  }

  /**
   * The decoder X.690 calls for: the long-form length bytes follow the
   * length-form byte, all of them must have arrived, and the indefinite form
   * 0x80 is invalid.
   */
  function DecodeHeader(buffer: seq<uint8>, bufferLength: uint32): Outcome
    requires 1 <= |buffer| && bufferLength as int <= |buffer|
  {
    if DecodeTag(buffer[0]).number != NumberOctetString then Invalid
    else if bufferLength < 2 then Incomplete
    else if buffer[1] < 0x80 then Complete(buffer[1])
    else
      var count := buffer[1] - 0x80;
      if count == 0 || count > MaxLengthBytes then Invalid
      else if 2 + count > bufferLength as int then Incomplete
      else Complete(LengthValue(buffer[2..2 + count]))
  }

  /**
   * `DecodeHeader` inverts `EncodeHeader`: once the whole header has arrived it
   * gives back the length, whatever follows it; before that it asks for more.
   */
  lemma HeaderRoundTrip(length: uint32, rest: seq<uint8>, n: uint32)
    requires 1 <= n as int <= |EncodeHeader(length) + rest|
    ensures n as int >= |EncodeHeader(length)| ==> DecodeHeader(EncodeHeader(length) + rest, n) == Complete(length)
    ensures n as int < |EncodeHeader(length)| ==> DecodeHeader(EncodeHeader(length) + rest, n) == Incomplete
  {
    var h := EncodeHeader(length);
    var buffer := h + rest;
    if length >= 0x80 {
      var bytes := MinimalBytes(length);
      MinimalBytesCanonical(length);
      BigEndianBound(bytes);
      MinimalBytesLength(length, 4);
      assert buffer[1] == 0x80 + |bytes|;
      assert buffer[2..2 + |bytes|] == bytes;
    }
  }

  /** `DecodeHeader` rejects the indefinite form. */
  lemma HeaderRejectsIndefinite(rest: seq<uint8>, n: uint32)
    requires 2 <= n as int <= 2 + |rest|
    ensures DecodeHeader([NumberOctetString, 0x80] + rest, n) == Invalid
  {
  }

  /** On the header of a 128-byte string the code as written and X.690 disagree. */
  lemma AsWrittenDiffersFromX690()
    ensures EncodeHeader(128) == [0x04, 0x81, 0x80]
    ensures DecodeHeader(EncodeHeader(128), 3) == Complete(128)
    ensures Expected(EncodeHeader(128), 3) == Complete(129)
    ensures DecodeHeader(EncodeHeader(128), 2) == Incomplete
    ensures Expected(EncodeHeader(128), 2) == Complete(129)
  {
    assert MinimalBytes(128) == [128] by {
      assert MinimalBytes(0) == [];
    }
    LongFormOffByOne();
    assert [0x04, 0x81, 0x80][2..3] == [0x80];
  }
}

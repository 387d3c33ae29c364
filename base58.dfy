/**
 * Base58 encoding with the Bitcoin alphabet (`buffer_to_encoded_base58`).
 *
 * The specification `Encode` says what the text is: one '1' per leading zero
 * byte, then the base-58 digits of the big-endian value of the remaining bytes,
 * most significant first. `Decode` is an independent reference decoder, and
 * `RoundTrip` shows that it inverts `Encode`. The imperative method
 * `BufferToEncodedBase58` follows the C function step by step over the same
 * two 164-byte scratch arrays and is proved to write exactly `Encode(input)`.
 */
module Base58 {
  import opened Bytes

  /** `BASE58ALPHABET`: digit value d is written as `Alphabet[d]`. */
  const Alphabet: seq<char> := AlphabetDigits + AlphabetUpper + AlphabetLower

  /** The three runs of `BASE58ALPHABET`: digits without '0', upper case without 'I' and 'O', lower case without 'l'. */
  const AlphabetDigits: seq<char> := "123456789"
  const AlphabetUpper: seq<char> := "ABCDEFGHJKLMNPQRSTUVWXYZ"
  const AlphabetLower: seq<char> := "abcdefghijkmnopqrstuvwxyz"

  /** `sizeof(tmp)` and `sizeof(buffer)`: the largest accepted input length. */
  const ScratchSize: uint8 := 164

  /** Longest input for which `buffer[--j]`, starting at `j = 2 * length`, stays inside `buffer`. */
  const MaxSafeLength: uint8 := 82

  type digit = x: int | 0 <= x < 58

  /** The two `THROW`s of the C function. */
  datatype Error = InvalidParameter | ExceptionOverflow

  datatype Result<T> = Ok(value: T) | Err(error: Error)

  // ---------------------------------------------------------------------------
  // Specification
  // ---------------------------------------------------------------------------

  /** The value of base-58 digits, most significant first. */
  function Value58(d: seq<digit>): nat
  {
    if d == [] then 0 else Value58(d[..|d| - 1]) * 58 + d[|d| - 1]
  }

  /** The base-58 digits of `n`, most significant first, with no leading zero digit; empty for 0. */
  function Digits58(n: nat): seq<digit>
  {
    if n == 0 then [] else Digits58(n / 58) + [n % 58]
  }

  /** The characters that stand for the digits `d`. */
  function Spell(d: seq<digit>): (t: seq<char>)
    ensures |t| == |d|
  {
    seq(|d|, i requires 0 <= i < |d| => Alphabet[d[i]])
  }

  lemma SpellCons(x: digit, d: seq<digit>)
    ensures Spell([x] + d) == [Alphabet[x]] + Spell(d)
  {
  }

  function Ones(n: nat): seq<char>
  {
    seq(n, _ => '1')
  }

  lemma OnesCons(n: nat)
    ensures ['1'] + Ones(n) == Ones(n + 1)
  {
  }

  function Zeros(n: nat): seq<uint8>
  {
    seq(n, _ => 0)
  }

  /** Number of leading zero bytes of `s` (the C variable `zeroCount`). */
  function LeadingZeros(s: seq<uint8>): (z: nat)
    ensures z <= |s|
  {
    if s == [] || s[0] != 0 then 0 else 1 + LeadingZeros(s[1..])
  }

  /** `s` starts with exactly `z` zero bytes. */
  predicate ZeroRun(s: seq<uint8>, z: nat)
  {
    z <= |s| && (forall k :: 0 <= k < z ==> s[k] == 0) && (z < |s| ==> s[z] != 0)
  }

  /** Number of leading '1' characters of `t`. */
  function LeadingOnes(t: seq<char>): (z: nat)
    ensures z <= |t|
  {
    if t == [] || t[0] != '1' then 0 else 1 + LeadingOnes(t[1..])
  }

  /** `t` starts with exactly `z` '1' characters. */
  predicate OneRun(t: seq<char>, z: nat)
  {
    z <= |t| && (forall k :: 0 <= k < z ==> t[k] == '1') && (z < |t| ==> t[z] != '1')
  }

  /** The Base58 text of `s`. */
  function Encode(s: seq<uint8>): seq<char>
  {
    var z := LeadingZeros(s);
    Ones(z) + Spell(Digits58(BigEndian(s[z..])))
  }

  /** The digit that the character `c` stands for, if any. */
  ghost function DigitOf(c: char): Option<digit>
  {
    if c in Alphabet then
      var i :| 0 <= i < |Alphabet| && Alphabet[i] == c; Some(i)
    else None
  }

  ghost function DigitsOf(t: seq<char>): Option<seq<digit>>
  {
    if t == [] then Some([])
    else match (DigitOf(t[0]), DigitsOf(t[1..]))
      case (Some(x), Some(rest)) => Some([x] + rest)
      case _ => None
  }

  /** Reference decoder: each leading '1' is a zero byte, the rest is a base-58 number. */
  ghost function Decode(t: seq<char>): Option<seq<uint8>>
  {
    var z := LeadingOnes(t);
    match DigitsOf(t[z..])
    case None => None
    case Some(d) => Some(Zeros(z) + MinimalBytes(Value58(d)))
  }

  // ---------------------------------------------------------------------------
  // Properties of the alphabet and of the digit functions
  // ---------------------------------------------------------------------------

  predicate Ascending(a: seq<char>)
  {
    forall i :: 0 <= i < |a| - 1 ==> a[i] < a[i + 1]
  }

  lemma DigitsAscending()
    ensures Ascending(AlphabetDigits)
  {
  }

  lemma UpperAscending()
    ensures Ascending(AlphabetUpper)
  {
  }

  lemma LowerAscending()
    ensures Ascending(AlphabetLower)
  {
  }

  /** Two ascending runs joined in order make an ascending run. */
  lemma AscendingJoin(a: seq<char>, b: seq<char>)
    requires Ascending(a) && Ascending(b)
    requires a != [] && b != [] && a[|a| - 1] < b[0]
    ensures Ascending(a + b)
  {
    forall i | 0 <= i < |a + b| - 1
      ensures (a + b)[i] < (a + b)[i + 1]
    {
      if i == |a| - 1 {
      } else if i < |a| {
        assert (a + b)[i] == a[i] && (a + b)[i + 1] == a[i + 1];
      } else {
        assert (a + b)[i] == b[i - |a|] && (a + b)[i + 1] == b[i + 1 - |a|];
      }
    }
  }

  /** The alphabet is in ascending character order: each run is, and so are the joins. */
  lemma AlphabetAscending()
    ensures |Alphabet| == 58
    ensures Ascending(Alphabet)
  {
    DigitsAscending();
    UpperAscending();
    LowerAscending();
    AscendingJoin(AlphabetDigits, AlphabetUpper);
    AscendingJoin(AlphabetDigits + AlphabetUpper, AlphabetLower);
  }

  lemma {:induction false} AscendingFrom(a: seq<char>, i: nat, k: nat)
    requires Ascending(a)
    requires i < k < |a|
    ensures a[i] < a[k]
    decreases k - i
  {
    if i + 1 < k {
      AscendingFrom(a, i + 1, k);
    }
  }

  /** No character stands for two digits. */
  lemma AlphabetDistinct(i: nat, k: nat)
    requires i < 58 && k < 58 && i != k
    ensures Alphabet[i] != Alphabet[k]
  {
    AlphabetAscending();
    if i < k { AscendingFrom(Alphabet, i, k); } else { AscendingFrom(Alphabet, k, i); }
  }

  lemma DigitOfAlphabet(x: digit)
    ensures DigitOf(Alphabet[x]) == Some(x)
  {
    AlphabetAscending();
    var i :| 0 <= i < |Alphabet| && Alphabet[i] == Alphabet[x] && DigitOf(Alphabet[x]) == Some(i);
    if i != x {
      AlphabetDistinct(i, x);
    }
  }

  /** Reading the characters back gives the digits. */
  lemma {:induction false} DigitsOfSpell(d: seq<digit>)
    ensures DigitsOf(Spell(d)) == Some(d)
  {
    if d != [] {
      DigitOfAlphabet(d[0]);
      assert Spell(d)[1..] == Spell(d[1..]);
      DigitsOfSpell(d[1..]);
      assert [d[0]] + d[1..] == d;
    }
  }

  /** Splitting off the most significant digit. */
  lemma {:induction false} Value58Front(x: digit, d: seq<digit>)
    ensures Value58([x] + d) == x * Pow(58, |d|) + Value58(d)
  {
    if d == [] {
      assert ([x] + d)[..0] == [];
    } else {
      var init := d[..|d| - 1];
      assert ([x] + d)[..|d|] == [x] + init;
      Value58Front(x, init);
      calc {
        Value58([x] + d);
        Value58([x] + init) * 58 + d[|d| - 1];
        (x * Pow(58, |init|) + Value58(init)) * 58 + d[|d| - 1];
        x * (Pow(58, |init|) * 58) + (Value58(init) * 58 + d[|d| - 1]);
        x * Pow(58, |d|) + Value58(d);
      }
    }
  }

  lemma {:induction false} Value58OfDigits(n: nat)
    ensures Value58(Digits58(n)) == n
    ensures n == 0 <==> Digits58(n) == []
    ensures Digits58(n) == [] || Digits58(n)[0] != 0
  {
    if n > 0 {
      Value58OfDigits(n / 58);
      assert (Digits58(n / 58) + [n % 58])[..|Digits58(n / 58)|] == Digits58(n / 58);
    }
  }

  /** Digits with no leading zero are the digits of their value: `Digits58` is the only such spelling. */
  lemma {:induction false} DigitsOfValue58(d: seq<digit>)
    requires d == [] || d[0] != 0
    ensures Digits58(Value58(d)) == d
  {
    if d != [] {
      var init := d[..|d| - 1];
      Value58Front(d[0], d[1..]);
      assert [d[0]] + d[1..] == d;
      PowPositive(58, |d| - 1);
      assert Value58(d) > 0;
      assert Value58(d) / 58 == Value58(init);
      assert Value58(d) % 58 == d[|d| - 1];
      DigitsOfValue58(init);
    }
  }

  /** Value58 ignores a leading zero digit. */
  lemma DropZeroDigit(d: seq<digit>)
    requires d != [] && d[0] == 0
    ensures Value58(d) == Value58(d[1..])
  {
    Value58Front(0, d[1..]);
    assert [0] + d[1..] == d;
  }

  /** Digits that fit below 256^m number fewer than 2m. */
  lemma DigitCountBound(k: nat, n: nat, m: nat)
    requires Pow(58, k) <= n < Pow(256, m)
    ensures k < 2 * m
  {
    Pow256BelowPow58Squared(m);
    if k >= 2 * m {
      PowMonotone(58, 2 * m, k);
    }
  }

  /** `LeadingZeros(s)` is `z` exactly when `s` starts with exactly `z` zero bytes. */
  lemma {:induction false} LeadingZerosSpec(s: seq<uint8>, z: nat)
    ensures LeadingZeros(s) == z <==> ZeroRun(s, z)
  {
    if s != [] && s[0] == 0 && z > 0 {
      var rest := s[1..];
      LeadingZerosSpec(rest, z - 1);
      if ZeroRun(rest, z - 1) {
        forall k | 0 < k < z
          ensures s[k] == 0
        {
          assert s[k] == rest[k - 1];
        }
        assert z < |s| ==> s[z] == rest[z - 1];
      }
      if ZeroRun(s, z) {
        forall k | 0 <= k < z - 1
          ensures rest[k] == 0
        {
          assert rest[k] == s[k + 1];
        }
        assert z < |s| ==> s[z] == rest[z - 1];
      }
    }
  }

  /** `LeadingOnes(t)` is `z` exactly when `t` starts with exactly `z` '1's. */
  lemma {:induction false} LeadingOnesSpec(t: seq<char>, z: nat)
    ensures LeadingOnes(t) == z <==> OneRun(t, z)
  {
    if t != [] && t[0] == '1' && z > 0 {
      var rest := t[1..];
      LeadingOnesSpec(rest, z - 1);
      if OneRun(rest, z - 1) {
        forall k | 0 < k < z
          ensures t[k] == '1'
        {
          assert t[k] == rest[k - 1];
        }
        assert z < |t| ==> t[z] == rest[z - 1];
      }
      if OneRun(t, z) {
        forall k | 0 <= k < z - 1
          ensures rest[k] == '1'
        {
          assert rest[k] == t[k + 1];
        }
        assert z < |t| ==> t[z] == rest[z - 1];
      }
    }
  }

  // ---------------------------------------------------------------------------
  // Properties of Encode
  // ---------------------------------------------------------------------------

  /**
   * The text is one '1' per leading zero byte and then the significant digits,
   * the first of which is not '1'; every character is from the alphabet.
   */
  lemma EncodeShape(s: seq<uint8>)
    ensures LeadingOnes(Encode(s)) == LeadingZeros(s)
    ensures forall c :: c in Encode(s) ==> c in Alphabet
  {
    var z := LeadingZeros(s);
    var d := Digits58(BigEndian(s[z..]));
    Value58OfDigits(BigEndian(s[z..]));
    var t := Encode(s);
    assert t == Ones(z) + Spell(d);
    if z < |t| {
      assert t[z] == Alphabet[d[0]];
      AlphabetDistinct(0, d[0]);
    }
    LeadingOnesSpec(t, z);
  }

  /** The empty input encodes to the empty text; n zero bytes to n '1's. */
  lemma EncodeZeros(n: nat)
    ensures Encode(Zeros(n)) == Ones(n)
  {
    LeadingZerosSpec(Zeros(n), n);
    assert Zeros(n)[n..] == [];
  }

  /** Digits come most significant first: 58 is written "21" (one 58, no units). */
  lemma DigitOrderExample()
    ensures Spell(Digits58(58)) == "21"
  {
    assert Digits58(1) == [1];
    assert Digits58(58) == [1, 0];
    var t := Spell([1, 0]);
    assert Alphabet[1] == '2' && Alphabet[0] == '1';
    assert |t| == 2 && t[0] == '2' && t[1] == '1';
  }

  /** A value below 256^m has at most 2m base-58 digits. */
  lemma DigitsLength(n: nat, m: nat)
    requires n < Pow(256, m)
    ensures |Digits58(n)| <= 2 * m
  {
    var d := Digits58(n);
    Value58OfDigits(n);
    if d != [] {
      Value58Front(d[0], d[1..]);
      assert [d[0]] + d[1..] == d;
      MulAtLeastOne(d[0], Pow(58, |d| - 1));
      DigitCountBound(|d| - 1, n, m);
    }
  }

  /** The text is at most two characters per byte: one per leading zero byte, two per other byte. */
  lemma EncodeLength(s: seq<uint8>)
    ensures |Encode(s)| <= 2 * |s| - LeadingZeros(s)
  {
    var z := LeadingZeros(s);
    BigEndianBound(s[z..]);
    DigitsLength(BigEndian(s[z..]), |s| - z);
  }

  /** What `Decode` does with a text once its '1's and digits are known. */
  lemma DecodeOf(t: seq<char>, z: nat, d: seq<digit>)
    requires LeadingOnes(t) == z && DigitsOf(t[z..]) == Some(d)
    ensures Decode(t) == Some(Zeros(z) + MinimalBytes(Value58(d)))
  {
  }

  /** Decoding an encoded text gives its zero bytes and the minimal bytes of its value. */
  lemma DecodeEncoded(s: seq<uint8>)
    ensures Decode(Encode(s)) == Some(Zeros(LeadingZeros(s)) + MinimalBytes(BigEndian(s[LeadingZeros(s)..])))
  {
    var z := LeadingZeros(s);
    var n := BigEndian(s[z..]);
    var d := Digits58(n);
    var t := Encode(s);
    assert t[z..] == Spell(d);
    EncodeShape(s);
    DigitsOfSpell(d);
    DecodeOf(t, z, d);
    Value58OfDigits(n);
  }

  /** The leading zero bytes and the minimal bytes of the rest's value rebuild the input. */
  lemma ZerosThenMinimal(s: seq<uint8>)
    ensures Zeros(LeadingZeros(s)) + MinimalBytes(BigEndian(s[LeadingZeros(s)..])) == s
  {
    var z := LeadingZeros(s);
    LeadingZerosSpec(s, z);
    MinimalBytesOfBigEndian(s[z..]);
    assert Zeros(z) + s[z..] == s;
  }

  /** `Decode` inverts `Encode`: the text determines the bytes. */
  lemma RoundTrip(s: seq<uint8>)
    ensures Decode(Encode(s)) == Some(s)
  {
    DecodeEncoded(s);
    ZerosThenMinimal(s);
  }

  /** Different inputs give different texts. */
  lemma EncodeInjective(s1: seq<uint8>, s2: seq<uint8>)
    requires Encode(s1) == Encode(s2)
    ensures s1 == s2
  {
    RoundTrip(s1);
    RoundTrip(s2);
  }

  // ---------------------------------------------------------------------------
  // The C function, loop by loop
  // ---------------------------------------------------------------------------

  /** The first loop: `zeroCount` is the number of leading zero bytes of `tmp[..length]`. */
  method CountLeadingZeros(tmp: array<uint8>, length: uint8) returns (zeroCount: uint8)
    requires length as int <= tmp.Length
    ensures zeroCount as int == LeadingZeros(tmp[..length])
    ensures zeroCount < length ==> tmp[zeroCount] != 0
  {
    zeroCount := 0;
    while zeroCount < length && tmp[zeroCount] == 0
      invariant zeroCount <= length
      invariant forall k :: 0 <= k < zeroCount ==> tmp[k] == 0
    {
      zeroCount := zeroCount + 1;
    }
    LeadingZerosSpec(tmp[..length], zeroCount as nat);
  }

  /**
   * In one step of the division the running remainder and the next byte fit
   * the `unsigned short` `tmpDiv`, and their quotient fits a byte.
   */
  lemma QuotientByte(r: nat, c: nat)
    requires r < 58 && c < 256
    ensures r * 256 + c <= 14847
    ensures (r * 256 + c) / 58 < 256
  {
  }

  /**
   * One step of the division: byte `c` joins the running remainder `r`, the
   * quotient gains the byte `d` and the new remainder is what is left.
   */
  lemma DivStep(dividend: seq<uint8>, quotient: seq<uint8>, r: nat, c: uint8, d: uint8)
    requires r < 58 && d == (r * 256 + c) / 58
    requires BigEndian(dividend) == BigEndian(quotient) * 58 + r
    ensures BigEndian(dividend + [c]) == BigEndian(quotient + [d]) * 58 + (r * 256 + c) % 58
  {
    var t := r * 256 + c;
    assert t == d * 58 + t % 58;
    BigEndianAppend(dividend, c);
    BigEndianAppend(quotient, d);
  }

  /**
   * A division pass never leaves two new leading zero bytes: if the dividend
   * starts with a nonzero byte, the quotient (of the same width) has a
   * nonzero byte among its first two.
   */
  lemma AtMostOneNewZero(a: seq<uint8>, q: seq<uint8>, r: nat)
    requires |a| == |q| >= 2 && a[0] != 0 && q[0] == 0 && r < 58
    requires BigEndian(a) == BigEndian(q) * 58 + r
    ensures q[1] != 0
  {
    var p := Pow(256, |a| - 2);
    assert Pow(256, |a| - 1) == 256 * p;
    PowPositive(256, |a| - 2);
    LeadingNonzeroPositive(a);
    BigEndianFront(q);
    if q[1] == 0 {
      BigEndianFront(q[1..]);
      assert q[1..][1..] == q[2..];
      BigEndianBound(q[2..]);
      assert false;
    }
  }

  /**
   * One pass of the schoolbook division of `tmp[startAt..length)` by 58
   * (the inner `for` loop): the bytes become the quotient, the result is the
   * remainder, and no other byte changes.
   */
  method DivMod58(tmp: array<uint8>, startAt: nat, length: nat) returns (remainder: uint16)
    requires startAt < length <= tmp.Length
    modifies tmp
    ensures remainder < 58
    ensures BigEndian(old(tmp[startAt..length])) == BigEndian(tmp[startAt..length]) * 58 + remainder
    ensures forall k :: 0 <= k < tmp.Length && !(startAt <= k < length) ==> tmp[k] == old(tmp[k])
  {
    ghost var orig := tmp[..];
    ghost var quotient: seq<uint8> := [];
    remainder := 0;
    var divLoop := startAt;
    while divLoop < length
      invariant startAt <= divLoop <= length
      invariant remainder < 58
      invariant |quotient| == divLoop - startAt
      invariant BigEndian(orig[startAt..divLoop]) == BigEndian(quotient) * 58 + remainder
      invariant forall k :: startAt <= k < divLoop ==> tmp[k] == quotient[k - startAt]
      invariant forall k :: 0 <= k < tmp.Length && !(startAt <= k < divLoop) ==> tmp[k] == orig[k]
    {
      var digit256: uint16 := tmp[divLoop];
      var tmpDiv: uint16 := remainder * 256 + digit256;
      QuotientByte(remainder as nat, digit256 as nat);
      DivStep(orig[startAt..divLoop], quotient, remainder as nat, digit256, tmpDiv / 58);
      assert orig[startAt..divLoop + 1] == orig[startAt..divLoop] + [digit256];
      tmp[divLoop] := tmpDiv / 58;
      remainder := tmpDiv % 58;
      quotient := quotient + [tmpDiv / 58];
      divLoop := divLoop + 1;
    }
    assert tmp[startAt..length] == quotient;
    assert orig[startAt..length] == old(tmp[startAt..length]);
  }

  /** `buffer[--j] = BASE58ALPHABET[x]`: one more digit in front of the digits already written. */
  method PutDigit(buffer: array<char>, j: uint8, end: uint8, ghost digits: seq<digit>, x: digit)
    requires 0 < j <= end <= buffer.Length
    requires buffer[j..end] == Spell(digits)
    modifies buffer
    ensures buffer[j - 1..end] == Spell([x] + digits)
    ensures forall k :: 0 <= k < buffer.Length && k != j - 1 ==> buffer[k] == old(buffer[k])
  {
    buffer[j - 1] := Alphabet[x];
    assert buffer[j - 1..end] == [Alphabet[x]] + old(buffer[j..end]);
    SpellCons(x, digits);
  }

  /**
   * The division loop: divides `tmp[zeroCount..length)` by 58 until nothing is
   * left, writing each remainder's character backwards from `buffer[2 * length]`.
   * The digits written are exactly the base-58 digits of the bytes' value, so
   * there are at most 2 * (length - zeroCount) of them.
   */
  method DivideOut(tmp: array<uint8>, buffer: array<char>, zeroCount: uint8, length: uint8)
    returns (j: uint8, ghost digits: seq<digit>)
    requires zeroCount <= length <= MaxSafeLength
    requires length as int <= tmp.Length && 2 * length as int <= buffer.Length
    requires zeroCount < length ==> tmp[zeroCount] != 0
    modifies tmp, buffer
    ensures 2 * zeroCount <= j as int == 2 * length - |digits|
    ensures buffer[j..2 * length] == Spell(digits)
    ensures digits == Digits58(BigEndian(old(tmp[zeroCount..length])))
    ensures forall k :: 0 <= k < buffer.Length && !(j <= k < 2 * length) ==> buffer[k] == old(buffer[k])
    ensures forall k :: 0 <= k < tmp.Length && !(zeroCount <= k < length) ==> tmp[k] == old(tmp[k])
    ensures forall k :: zeroCount <= k < length ==> tmp[k] == 0
  {
    ghost var n := BigEndian(tmp[zeroCount..length]);
    BigEndianBound(tmp[zeroCount..length]);
    DigitsLength(n, length - zeroCount);
    j := 2 * length;
    var startAt: uint8 := zeroCount;
    digits := [];
    while startAt < length
      invariant zeroCount <= startAt <= length
      invariant startAt < length ==> tmp[startAt] != 0
      invariant j as int + |digits| == 2 * length
      invariant buffer[j..2 * length] == Spell(digits)
      invariant Digits58(BigEndian(tmp[startAt..length])) + digits == Digits58(n)
      invariant forall k :: 0 <= k < buffer.Length && !(j <= k < 2 * length) ==> buffer[k] == old(buffer[k])
      invariant forall k :: 0 <= k < tmp.Length && !(zeroCount <= k < length) ==> tmp[k] == old(tmp[k])
      invariant forall k :: zeroCount <= k < startAt ==> tmp[k] == 0
      decreases BigEndian(tmp[startAt..length])
    {
      ghost var v := BigEndian(tmp[startAt..length]);
      LeadingNonzeroPositive(tmp[startAt..length]);
      assert |Digits58(v)| >= 1;
      var remainder;
      startAt, remainder := DivisionPass(tmp, buffer, startAt, length, j, 2 * length, digits);
      DigitsStep(v, BigEndian(tmp[startAt..length]), remainder, digits);
      j := j - 1;
      digits := [remainder] + digits;
    }
    assert tmp[startAt..length] == [];
  }

  /**
   * One turn of the division loop: divide `tmp[startAt..length)` by 58, step
   * past a new leading zero byte, and write the remainder's character at
   * `buffer[--j]`.
   */
  method DivisionPass(tmp: array<uint8>, buffer: array<char>, startAt: uint8, length: uint8,
                      j: uint8, end: uint8, ghost digits: seq<digit>)
    returns (nextStart: uint8, remainder: digit)
    requires startAt < length <= tmp.Length && tmp[startAt] != 0
    requires 0 < j <= end <= buffer.Length && buffer[j..end] == Spell(digits)
    modifies tmp, buffer
    ensures startAt <= nextStart <= length && (nextStart < length ==> tmp[nextStart] != 0)
    ensures BigEndian(old(tmp[startAt..length])) == BigEndian(tmp[nextStart..length]) * 58 + remainder
    ensures buffer[j - 1..end] == Spell([remainder] + digits)
    ensures forall k :: startAt <= k < nextStart ==> tmp[k] == 0
    ensures forall k :: 0 <= k < tmp.Length && !(startAt <= k < length) ==> tmp[k] == old(tmp[k])
    ensures forall k :: 0 <= k < buffer.Length && k != j - 1 ==> buffer[k] == old(buffer[k])
  {
    ghost var dividend := tmp[startAt..length];
    var r := DivMod58(tmp, startAt as nat, length as nat);
    ghost var quotient := tmp[startAt..length];
    AfterPass(dividend, quotient, r as nat);
    nextStart := startAt;
    if tmp[startAt] == 0 {
      assert quotient[1..] == tmp[startAt + 1..length];
      nextStart := startAt + 1;
    }
    remainder := r as digit;
    PutDigit(buffer, j, end, digits, remainder);
  }

  /**
   * What one division pass leaves: a smaller value, and if its first byte is
   * zero, dropping it keeps the value and the next byte is nonzero.
   */
  lemma AfterPass(dividend: seq<uint8>, quotient: seq<uint8>, r: nat)
    requires |dividend| == |quotient| >= 1 && dividend[0] != 0 && r < 58
    requires BigEndian(dividend) == BigEndian(quotient) * 58 + r
    ensures 0 <= BigEndian(quotient) < BigEndian(dividend)
    ensures quotient[0] == 0 ==> BigEndian(quotient[1..]) == BigEndian(quotient)
    ensures quotient[0] == 0 && |quotient| > 1 ==> quotient[1] != 0
  {
    LeadingNonzeroPositive(dividend);
    if quotient[0] == 0 {
      DropLeadingZero(quotient);
      if |quotient| > 1 {
        AtMostOneNewZero(dividend, quotient, r);
      }
    }
  }

  /**
   * One division pass of a nonzero value moves its last base-58 digit from the
   * quotient to the digits already written.
   */
  lemma DigitsStep(v: nat, q: nat, r: digit, digits: seq<digit>)
    requires v > 0 && v == q * 58 + r
    ensures Digits58(v) + digits == Digits58(q) + ([r] + digits)
    ensures |Digits58(q) + ([r] + digits)| == |Digits58(q)| + |digits| + 1
  {
    assert Digits58(v) == Digits58(q) + [r];
  }

  /** What the three loops leave in `buffer` is the text `Encode` specifies. */
  lemma EncodeFromParts(s: seq<uint8>, z: nat, d: seq<digit>)
    requires z == LeadingZeros(s)
    requires Value58(d) == Value58(Digits58(BigEndian(s[z..])))
    requires d == [] || d[0] != 0
    ensures Encode(s) == Ones(z) + Spell(d)
  {
    Value58OfDigits(BigEndian(s[z..]));
    DigitsOfValue58(d);
  }

  /** The loop that skips '1' digits at the front of `buffer[j..end)`; they add nothing to the value. */
  method SkipOnes(buffer: array<char>, j: uint8, end: uint8, ghost d: seq<digit>) returns (next: uint8)
    requires j <= end <= buffer.Length
    requires buffer[j..end] == Spell(d)
    ensures j <= next <= end
    ensures buffer[next..end] == Spell(d[next - j..])
    ensures Value58(d[next - j..]) == Value58(d)
    ensures d[next - j..] == [] || d[next - j] != 0
  {
    next := j;
    while next < end && buffer[next] == Alphabet[0]
      invariant j <= next <= end
      invariant buffer[next..end] == Spell(d[next - j..])
      invariant Value58(d[next - j..]) == Value58(d)
    {
      var rest := d[next - j..];
      assert rest == [rest[0]] + rest[1..];
      SpellCons(rest[0], rest[1..]);
      if rest[0] != 0 {
        AlphabetDistinct(0, rest[0]);
      }
      DropZeroDigit(rest);
      assert rest[1..] == d[next + 1 - j..];
      assert buffer[next + 1..end] == buffer[next..end][1..];
      next := next + 1;
    }
    assert d[next - j..] != [] ==> Spell(d[next - j..])[0] == Alphabet[d[next - j]];
  }

  /** The loop that writes one '1' per leading zero byte in front of `buffer[j..end)`. */
  method PrependOnes(buffer: array<char>, j: uint8, zeroCount: uint8, end: uint8) returns (start: uint8)
    requires zeroCount <= j <= end <= buffer.Length
    modifies buffer
    ensures start == j - zeroCount
    ensures buffer[start..end] == Ones(zeroCount as nat) + old(buffer[j..end])
    ensures forall k :: 0 <= k < buffer.Length && !(start <= k < j) ==> buffer[k] == old(buffer[k])
  {
    start := j;
    var count: uint8 := zeroCount;
    ghost var tail := buffer[j..end];
    while count > 0
      invariant count <= start <= j
      invariant start as int + zeroCount as int == j as int + count as int
      invariant forall k :: start <= k < j ==> buffer[k] == '1'
      invariant buffer[j..end] == tail
      invariant forall k :: 0 <= k < buffer.Length && !(start <= k < j) ==> buffer[k] == old(buffer[k])
    {
      count := count - 1;
      start := start - 1;
      buffer[start] := Alphabet[0];
    }
    assert buffer[start..j] == Ones(zeroCount as nat);
    assert buffer[start..end] == buffer[start..j] + buffer[j..end];
  }

  /**
   * The last two loops: skip the '1' digits at the front of `buffer[j..end)`,
   * then put one '1' per leading zero byte in front of the digits that are left.
   */
  method StripAndPrepend(buffer: array<char>, j: uint8, zeroCount: uint8, end: uint8, ghost digits: seq<digit>)
    returns (start: uint8, ghost rest: seq<digit>)
    requires zeroCount <= j <= end <= buffer.Length
    requires buffer[j..end] == Spell(digits)
    modifies buffer
    ensures start <= end
    ensures Value58(rest) == Value58(digits) && (rest == [] || rest[0] != 0)
    ensures buffer[start..end] == Ones(zeroCount as nat) + Spell(rest)
    ensures forall k :: 0 <= k < buffer.Length && !(start <= k < end) ==> buffer[k] == old(buffer[k])
  {
    var next := SkipOnes(buffer, j, end, digits);
    rest := digits[next - j..];
    start := PrependOnes(buffer, next, zeroCount, end);
  }

  /** `os_memmove(dst, src + from, n)` between two distinct arrays. */
  method MemMove<T>(dst: array<T>, src: array<T>, from: nat, n: nat)
    requires dst != src
    requires from + n <= src.Length && n <= dst.Length
    modifies dst
    ensures dst[..n] == src[from..from + n]
    ensures dst[n..] == old(dst[n..])
  {
    forall k | 0 <= k < n {
      dst[k] := src[from + k];
    }
  }

  /**
   * The work of `buffer_to_encoded_base58` on its two scratch arrays: copy the
   * input into `tmp`, count its leading zero bytes, divide out the base-58
   * digits into `buffer`, skip leading '1' digits and put one '1' per zero
   * byte in front. The text ends up in `buffer[j..2 * length)`.
   */
  method EncodeScratch(input: array<uint8>, length: uint8) returns (buffer: array<char>, j: uint8)
    requires length <= MaxSafeLength && length as int <= input.Length
    ensures fresh(buffer) && buffer.Length == ScratchSize as int
    ensures j <= 2 * length
    ensures buffer[j..2 * length] == Encode(input[..length])
  {
    ghost var s := input[..length];
    var tmp := new uint8[ScratchSize];
    buffer := new char[ScratchSize];
    MemMove(tmp, input, 0, length as nat);
    var zeroCount := CountLeadingZeros(tmp, length);
    assert tmp[zeroCount..length] == s[zeroCount..];
    ghost var digits;
    j, digits := DivideOut(tmp, buffer, zeroCount, length);
    ghost var rest;
    j, rest := StripAndPrepend(buffer, j, zeroCount, 2 * length, digits);
    EncodeFromParts(s, zeroCount as nat, rest);
    assert input[..length] == s;
  }

  /**
   * `buffer_to_encoded_base58`: writes the Base58 text of `input[..length]`
   * to `out` and returns its length, or fails without touching `out`.
   */
  method BufferToEncodedBase58(input: array<uint8>, length: uint8, out: array<char>, maxoutlen: uint8)
    returns (r: Result<uint8>)
    requires length <= ScratchSize ==> length as int <= input.Length
    requires length <= MaxSafeLength || length > ScratchSize
    requires maxoutlen as int <= out.Length
    modifies out
    ensures length > ScratchSize ==> r == Err(InvalidParameter) && unchanged(out)
    ensures length <= ScratchSize && |Encode(input[..length])| > maxoutlen as int ==>
              r == Err(ExceptionOverflow) && unchanged(out)
    ensures length <= ScratchSize && |Encode(input[..length])| <= maxoutlen as int ==>
              var e := Encode(input[..length]);
              r == Ok(|e|) && out[..|e|] == e && out[|e|..] == old(out[|e|..])
  {
    if length > ScratchSize {
      return Err(InvalidParameter);
    }
    ghost var e := Encode(input[..length]);
    var buffer, j := EncodeScratch(input, length);
    var outLength: uint8 := 2 * length - j;
    if maxoutlen < outLength {
      return Err(ExceptionOverflow);
    }
    MemMove(out, buffer, j as nat, outLength as nat);
    assert input[..length] == old(input[..length]);
    return Ok(outLength);
  }
}

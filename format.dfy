/**
 * The two text formatters that write into a caller's buffer: upper-case hex
 * (`array_hexstr`) and signed 64-bit decimal (`i64toa`). Each is specified by a
 * function on sequences (`Hex`, `I64Text`), which a reference parser reads back.
 */
module Format {
  import opened Bytes

  /** `hex_digits` */
  const HexDigits: seq<char> := "0123456789ABCDEF"

  /** The `digit` table of `i64toa`. */
  const DecimalDigits: seq<char> := "0123456789"

  /** The C string terminator written after the text. */
  const Nul: char := '\0'

  // ---------------------------------------------------------------------------
  // Hex
  // ---------------------------------------------------------------------------

  /** Two characters per byte, high nibble first. */
  function Hex(s: seq<uint8>): (t: seq<char>)
    ensures |t| == 2 * |s|
  {
    if s == [] then []
    else
      var b := s[|s| - 1];
      Hex(s[..|s| - 1]) + [HexDigits[b / 16], HexDigits[b % 16]]
  }

  /** Byte `i` is written at positions 2i (high nibble) and 2i + 1 (low nibble). */
  lemma {:induction false} HexAt(s: seq<uint8>, i: nat)
    requires i < |s|
    ensures Hex(s)[2 * i] == HexDigits[s[i] / 16]
    ensures Hex(s)[2 * i + 1] == HexDigits[s[i] % 16]
  {
    if i < |s| - 1 {
      HexAt(s[..|s| - 1], i);
    }
  }

  /** The value of a hex digit character, if it is one `Hex` writes. */
  ghost function NibbleOf(c: char): Option<nat>
  {
    if '0' <= c <= '9' then Some(c as nat - '0' as nat)
    else if 'A' <= c <= 'F' then Some(c as nat - 'A' as nat + 10)
    else None
  }

  /** Reference parser for `Hex`: pairs of digits, high nibble first. */
  ghost function UnHex(t: seq<char>): Option<seq<uint8>>
    decreases |t|
  {
    if t == [] then Some([])
    else if |t| == 1 then None
    else
      match (UnHex(t[..|t| - 2]), NibbleOf(t[|t| - 2]), NibbleOf(t[|t| - 1]))
      case (Some(init), Some(hi), Some(lo)) => Some(init + [hi * 16 + lo])
      case _ => None
  }

  lemma NibbleOfHexDigit(x: nat)
    requires x < 16
    ensures NibbleOf(HexDigits[x]) == Some(x)
  {
  }

  /** Appending the two digits of a byte to text `UnHex` accepts appends that byte. */
  lemma UnHexAppend(t: seq<char>, init: seq<uint8>, b: uint8)
    requires UnHex(t) == Some(init)
    ensures UnHex(t + [HexDigits[b / 16], HexDigits[b % 16]]) == Some(init + [b])
  {
    var u := t + [HexDigits[b / 16], HexDigits[b % 16]];
    assert u[..|u| - 2] == t;
    NibbleOfHexDigit(b / 16);
    NibbleOfHexDigit(b % 16);
  }

  /** `UnHex` reads back what `Hex` writes. */
  lemma {:induction false} HexRoundTrip(s: seq<uint8>)
    ensures UnHex(Hex(s)) == Some(s)
  {
    if s != [] {
      var init := s[..|s| - 1];
      var b := s[|s| - 1];
      assert Hex(s) == Hex(init) + [HexDigits[b / 16], HexDigits[b % 16]];
      HexRoundTrip(init);
      UnHexAppend(Hex(init), init, b);
      assert init + [b] == s;
    }
  }

  /** Every character is an upper-case hex digit. */
  lemma HexAlphabet(s: seq<uint8>)
    ensures forall c :: c in Hex(s) ==> ('0' <= c <= '9' || 'A' <= c <= 'F')
  {
    var t := Hex(s);
    forall c | c in t
      ensures '0' <= c <= '9' || 'A' <= c <= 'F'
    {
      var k :| 0 <= k < |t| && t[k] == c;
      var i := k / 2;
      HexAt(s, i);
      if k % 2 == 0 {
        assert k == 2 * i;
        NibbleOfHexDigit(s[i] / 16);
      } else {
        assert k == 2 * i + 1;
        NibbleOfHexDigit(s[i] % 16);
      }
    }
  }

  /**
   * `array_hexstr`: writes `Hex(bin[..len])` and a terminating NUL at the start
   * of `strbuf`. Shifting a `char` right by 4 and masking with 0xF gives bits
   * 7-4 whether `char` is signed or not, so the high nibble is `byte / 16`.
   */
  method ArrayHexstr(strbuf: array<char>, bin: array<uint8>, len: nat)
    requires len <= bin.Length
    requires 2 * len + 1 <= strbuf.Length
    modifies strbuf
    ensures strbuf[..2 * len + 1] == Hex(bin[..len]) + [Nul]
    ensures strbuf[2 * len + 1..] == old(strbuf[2 * len + 1..])
  {
    var p := 0;
    var i := 0;
    var remaining := len;
    while remaining > 0
      invariant i + remaining == len
      invariant p == 2 * i
      invariant strbuf[..p] == Hex(bin[..i])
      invariant strbuf[2 * len + 1..] == old(strbuf[2 * len + 1..])
    {
      remaining := remaining - 1;
      var b := bin[i];
      strbuf[p] := HexDigits[b / 16];
      p := p + 1;
      strbuf[p] := HexDigits[b % 16];
      p := p + 1;
      i := i + 1;
      assert bin[..i][..i - 1] == bin[..i - 1];
    }
    strbuf[p] := Nul;
    assert strbuf[..2 * len + 1] == strbuf[..p] + [Nul];
  }

  // ---------------------------------------------------------------------------
  // Signed decimal
  // ---------------------------------------------------------------------------

  /** Decimal digits of `n`, most significant first; "0" for 0. */
  function Decimal(n: nat): (t: seq<char>)
    ensures 1 <= |t|
  {
    if n < 10 then [DecimalDigits[n]] else Decimal(n / 10) + [DecimalDigits[n % 10]]
  }

  /** The text of `i`: a '-' for a negative value, then the digits of its magnitude. */
  function I64Text(i: int): seq<char>
  {
    if i < 0 then ['-'] + Decimal(-i) else Decimal(i)
  }

  ghost function DigitValue(c: char): Option<nat>
  {
    if '0' <= c <= '9' then Some(c as nat - '0' as nat) else None
  }

  /** Reference parser for unsigned decimal text (at least one digit). */
  ghost function ParseDecimal(t: seq<char>): Option<nat>
  {
    if t == [] then None
    else
      match (DigitValue(t[|t| - 1]), if |t| == 1 then Some(0) else ParseDecimal(t[..|t| - 1]))
      case (Some(d), Some(high)) => Some(high * 10 + d)
      case _ => None
  }

  /** Reference parser for signed decimal text. */
  ghost function ParseSigned(t: seq<char>): Option<int>
  {
    if t != [] && t[0] == '-' then
      match ParseDecimal(t[1..])
      case Some(n) => Some(-(n as int))
      case None => None
    else match ParseDecimal(t)
      case Some(n) => Some(n)
      case None => None
  }

  /** `ParseDecimal` reads back `Decimal`. */
  lemma {:induction false} DecimalRoundTrip(n: nat)
    ensures ParseDecimal(Decimal(n)) == Some(n)
  {
    if n >= 10 {
      DecimalRoundTrip(n / 10);
      assert Decimal(n)[..|Decimal(n)| - 1] == Decimal(n / 10);
    }
  }

  /** The digits have no leading zero unless the value is 0, and all are decimal digits. */
  lemma {:induction false} DecimalCanonical(n: nat)
    ensures Decimal(n)[0] == '0' <==> n == 0
    ensures forall c :: c in Decimal(n) ==> '0' <= c <= '9'
  {
    if n >= 10 {
      DecimalCanonical(n / 10);
      assert Decimal(n)[0] == Decimal(n / 10)[0];
    }
  }

  /** A value below 10^k has at most k digits. */
  lemma {:induction false} DecimalLength(n: nat, k: nat)
    requires 1 <= k && n < Pow(10, k)
    ensures |Decimal(n)| <= k
  {
    if n >= 10 {
      assert k >= 2;
      DecimalLength(n / 10, k - 1);
    }
  }

  lemma PowTen19()
    ensures Pow(10, 19) == 10_000_000_000_000_000_000
  {
    assert Pow(10, 5) == 100000;
  }

  /** A '-' in front of unsigned text negates what it parses to. */
  lemma ParseNegated(t: seq<char>, n: nat)
    requires ParseDecimal(t) == Some(n)
    ensures ParseSigned(['-'] + t) == Some(-(n as int))
  {
    assert (['-'] + t)[1..] == t;
  }

  /** Unsigned text that does not start with '-' parses as itself. */
  lemma ParseUnsigned(t: seq<char>, n: nat)
    requires ParseDecimal(t) == Some(n) && t[0] != '-'
    ensures ParseSigned(t) == Some(n)
  {
  }

  /** `ParseSigned` reads back `I64Text`. */
  lemma I64RoundTrip(i: int64)
    ensures ParseSigned(I64Text(i)) == Some(i as int)
  {
    if i < 0 {
      var n: nat := -(i as int);
      assert I64Text(i) == ['-'] + Decimal(n);
      DecimalRoundTrip(n);
      ParseNegated(Decimal(n), n);
    } else {
      DecimalRoundTrip(i as nat);
      DecimalCanonical(i as nat);
      assert Decimal(i as nat)[0] in Decimal(i as nat);
      ParseUnsigned(Decimal(i as nat), i as nat);
      assert I64Text(i) == Decimal(i as nat);
    }
  }

  /** Zero is written "0"; a negative value is its magnitude's digits after a '-'. */
  lemma I64TextExamples()
    ensures I64Text(0) == "0"
    ensures I64Text(-120) == "-120"
    ensures I64Text(7) == "7"
  {
    assert Decimal(12) == "12";
  }

  /** The text of an `int64`, sign included, is at most 20 characters. */
  lemma I64TextLength(i: int64)
    ensures |I64Text(i)| <= 20
  {
    var n: nat := if i < 0 then -(i as int) else i as int;
    PowTen19();
    DecimalLength(n, 19);
  }

  /** The first `do`/`while` loop: how many digits `v` has. */
  method CountDigits(v: int64) returns (count: nat)
    requires 0 <= v
    ensures count == |Decimal(v as nat)|
  {
    DecimalSplit(v as nat);
    var shifter: int64 := v;
    count := 1;
    shifter := shifter / 10;
    while shifter != 0
      invariant 0 <= shifter
      invariant count + |SignificantDigits(shifter as nat)| == |Decimal(v as nat)|
      decreases shifter
    {
      count := count + 1;
      shifter := shifter / 10;
    }
  }

  /** The decimal digits of `m` without leading zeros; none at all for zero. */
  ghost function SignificantDigits(m: nat): seq<char>
  {
    if m == 0 then [] else SignificantDigits(m / 10) + [DecimalDigits[m % 10]]
  }

  /** Apart from the lone "0" of zero, the text of `n` is its significant digits. */
  lemma {:induction false} DecimalSplit(n: nat)
    ensures Decimal(n) == SignificantDigits(n / 10) + [DecimalDigits[n % 10]]
    decreases n
  {
    if n >= 10 {
      DecimalSplit(n / 10);
    }
  }

  /** `*--p = c`: puts `c` just before the text already written at `b[p..end)`. */
  method PutChar(b: array<char>, p: nat, end: nat, c: char)
    requires 0 < p <= end <= b.Length
    modifies b
    ensures b[p - 1..end] == [c] + old(b[p..end])
    ensures b[..p - 1] == old(b[..p - 1]) && b[end..] == old(b[end..])
  {
    b[p - 1] := c;
    assert b[p - 1..end] == [c] + old(b[p..end]);
  }

  /**
   * The state of the second `do`/`while` loop: the digits of `m` are still to be
   * written in front of `p`, the rest of `digits` is already in `b[p..end)`, and
   * nothing outside that range has changed since `orig`.
   */
  ghost predicate DigitsPending(b: array<char>, orig: seq<char>, digits: seq<char>, m: nat, p: nat, end: nat)
    reads b
  {
    |orig| == b.Length && |digits| <= end && p < end <= b.Length &&
    p == end - |digits| + |SignificantDigits(m)| &&
    digits == SignificantDigits(m) + b[p..end] &&
    b[..p] == orig[..p] && b[end..] == orig[end..]
  }

  /** One pass of the second loop: `*--p = digit[i % 10]; i = i / 10;`. */
  method PutNextDigit(b: array<char>, m: int64, p: nat, end: nat, ghost orig: seq<char>, ghost digits: seq<char>)
    returns (m': int64, p': nat)
    requires 0 < m && DigitsPending(b, orig, digits, m as nat, p, end)
    modifies b
    ensures 0 <= m' < m && p' == p - 1
    ensures DigitsPending(b, orig, digits, m' as nat, p', end)
  {
    assert SignificantDigits(m as nat) == SignificantDigits((m / 10) as nat) + [DecimalDigits[m % 10]];
    PutChar(b, p, end, DecimalDigits[m % 10]);
    p' := p - 1;
    m' := m / 10;
  }

  /** The second `do`/`while` loop: writes the digits of `v` backwards so that they end just before `end`. */
  method WriteDigitsBefore(b: array<char>, v: int64, end: nat)
    requires 0 <= v
    requires |Decimal(v as nat)| <= end <= b.Length
    modifies b
    ensures b[end - |Decimal(v as nat)|..end] == Decimal(v as nat)
    ensures b[..end - |Decimal(v as nat)|] == old(b[..end - |Decimal(v as nat)|])
    ensures b[end..] == old(b[end..])
  {
    ghost var orig := b[..];
    ghost var digits := Decimal(v as nat);
    DecimalSplit(v as nat);
    var m := v;
    PutChar(b, end, end, DecimalDigits[m % 10]);
    var p: nat := end - 1;
    m := m / 10;
    while m != 0
      invariant 0 <= m && DigitsPending(b, orig, digits, m as nat, p, end)
      decreases m
    {
      m, p := PutNextDigit(b, m, p, end, orig, digits);
    }
  }

  /**
   * The part of `i64toa` after the sign: counts the digits of `v`, puts the NUL
   * after them and writes them backwards, starting the text at `b[start]`.
   */
  method WriteUnsigned(b: array<char>, start: nat, v: int64)
    requires 0 <= v
    requires start + |Decimal(v as nat)| + 1 <= b.Length
    modifies b
    ensures b[start..start + |Decimal(v as nat)| + 1] == Decimal(v as nat) + [Nul]
    ensures b[..start] == old(b[..start])
    ensures b[start + |Decimal(v as nat)| + 1..] == old(b[start + |Decimal(v as nat)| + 1..])
  {
    var count := CountDigits(v);
    var p := start + count;
    b[p] := Nul;
    ghost var afterNul := b[..];
    WriteDigitsBefore(b, v, p);
    assert b[p..] == afterNul[p..];
    assert b[start..p + 1] == b[start..p] + [b[p]];
  }

  /**
   * `i64toa`: writes `I64Text(i)` and a terminating NUL at the start of `b` and
   * returns `b`: the sign, then the digits.
   */
  method I64ToA(i: int64, b: array<char>) returns (r: array<char>)
    requires i != -0x8000_0000_0000_0000
    requires |I64Text(i)| + 1 <= b.Length
    modifies b
    ensures r == b
    ensures b[..|I64Text(i)| + 1] == I64Text(i) + [Nul]
    ensures b[|I64Text(i)| + 1..] == old(b[|I64Text(i)| + 1..])
  {
    ghost var t := I64Text(i);
    if i < 0 {
      b[0] := '-';
      var v: int64 := i * -1;
      assert t == ['-'] + Decimal(v as nat);
      WriteUnsigned(b, 1, v);
      assert b[..1] == ['-'];
      assert b[..|t| + 1] == b[..1] + b[1..|t| + 1];
    } else {
      WriteUnsigned(b, 0, i);
    }
    return b;
  }
}

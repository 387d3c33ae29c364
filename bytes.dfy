/**
 * Fixed-width integer types of the C source and the big-endian reading of a
 * byte string, shared by the Base58 encoder and the DER length decoder, and
 * the `Option` type the inverses of the encoders return.
 */
module Bytes {

  /** `unsigned char` / `uint8_t` */
  type uint8 = x: int | 0 <= x < 0x100
  /** `unsigned short` */
  type uint16 = x: int | 0 <= x < 0x1_0000
  /** `uint32_t` */
  type uint32 = x: int | 0 <= x < 0x1_0000_0000
  /** `int64_t` */
  type int64 = x: int | -0x8000_0000_0000_0000 <= x < 0x8000_0000_0000_0000

  /** The result of reading text back, for the inverses of the encoders. */
  datatype Option<T> = None | Some(value: T)

  function Pow(b: nat, e: nat): nat
  {
    if e == 0 then 1 else b * Pow(b, e - 1)
  }

  lemma {:induction false} PowPositive(b: nat, e: nat)
    requires b > 0
    ensures Pow(b, e) > 0
  {
    if e > 0 {
      PowPositive(b, e - 1);
    }
  }

  /** A larger exponent gives a larger power. */
  lemma {:induction false} PowMonotone(b: nat, e1: nat, e2: nat)
    requires b > 0 && e1 <= e2
    ensures Pow(b, e1) <= Pow(b, e2)
  {
    if e1 < e2 {
      PowMonotone(b, e1, e2 - 1);
      assert Pow(b, e2) == b * Pow(b, e2 - 1);
      MulAtLeastOne(b, Pow(b, e2 - 1));
    }
  }

  /** 256^m <= 58^(2m): two base-58 digits carry more than one byte. */
  lemma {:induction false} Pow256BelowPow58Squared(m: nat)
    ensures Pow(256, m) <= Pow(58, 2 * m)
  {
    if m > 0 {
      Pow256BelowPow58Squared(m - 1);
      PowPositive(58, 2 * (m - 1));
      calc {
        Pow(256, m);
        256 * Pow(256, m - 1);
      <= 256 * Pow(58, 2 * (m - 1));
      <= 58 * 58 * Pow(58, 2 * (m - 1));
        58 * Pow(58, 2 * m - 1);
        Pow(58, 2 * m);
      }
    }
  }

  /** A factor of at least one does not make a product smaller. */
  lemma MulAtLeastOne(a: nat, b: nat)
    requires a >= 1
    ensures b <= a * b
  {
  }

  /** The unsigned value of `s`, most significant byte first. */
  function BigEndian(s: seq<uint8>): nat
  {
    if s == [] then 0 else BigEndian(s[..|s| - 1]) * 256 + s[|s| - 1]
  }

  lemma BigEndianAppend(s: seq<uint8>, b: uint8)
    ensures BigEndian(s + [b]) == BigEndian(s) * 256 + b
  {
    assert (s + [b])[..|s|] == s;
  }

  /** An `n`-byte string holds a value below 256^n. */
  lemma {:induction false} BigEndianBound(s: seq<uint8>)
    ensures BigEndian(s) < Pow(256, |s|)
  {
    if s != [] {
      BigEndianBound(s[..|s| - 1]);
    }
  }

  /** Splitting off the most significant byte. */
  lemma {:induction false} BigEndianFront(s: seq<uint8>)
    requires s != []
    ensures BigEndian(s) == s[0] * Pow(256, |s| - 1) + BigEndian(s[1..])
  {
    if |s| > 1 {
      var init := s[..|s| - 1];
      BigEndianFront(init);
      assert init[1..] == s[1..][..|s| - 2];
      calc {
        BigEndian(s);
        BigEndian(init) * 256 + s[|s| - 1];
        (s[0] * Pow(256, |s| - 2) + BigEndian(init[1..])) * 256 + s[|s| - 1];
        s[0] * (Pow(256, |s| - 2) * 256) + (BigEndian(init[1..]) * 256 + s[|s| - 1]);
        s[0] * Pow(256, |s| - 1) + BigEndian(s[1..]);
      }
    } else {
      assert s[1..] == [];
      assert s[..0] == [];
    }
  }

  /** A leading zero byte does not change the value. */
  lemma DropLeadingZero(s: seq<uint8>)
    requires s != [] && s[0] == 0
    ensures BigEndian(s) == BigEndian(s[1..])
  {
    BigEndianFront(s);
  }

  /** A string that starts with a nonzero byte has a nonzero value. */
  lemma LeadingNonzeroPositive(s: seq<uint8>)
    requires s != [] && s[0] != 0
    ensures BigEndian(s) >= Pow(256, |s| - 1) > 0
  {
    BigEndianFront(s);
    PowPositive(256, |s| - 1);
  }

  /** The shortest big-endian byte string of `n`: empty for 0, no leading zero byte. */
  function MinimalBytes(n: nat): seq<uint8>
  {
    if n == 0 then [] else MinimalBytes(n / 256) + [n % 256]
  }

  lemma {:induction false} MinimalBytesCanonical(n: nat)
    ensures BigEndian(MinimalBytes(n)) == n
    ensures n == 0 <==> MinimalBytes(n) == []
    ensures MinimalBytes(n) == [] || MinimalBytes(n)[0] != 0
  {
    if n > 0 {
      MinimalBytesCanonical(n / 256);
      BigEndianAppend(MinimalBytes(n / 256), n % 256);
    }
  }

  /** Reading back a byte string without leading zero bytes gives the same string. */
  lemma {:induction false} MinimalBytesOfBigEndian(s: seq<uint8>)
    requires s == [] || s[0] != 0
    ensures MinimalBytes(BigEndian(s)) == s
  {
    if s != [] {
      var init := s[..|s| - 1];
      LeadingNonzeroPositive(s);
      assert BigEndian(s) / 256 == BigEndian(init);
      assert BigEndian(s) % 256 == s[|s| - 1];
      MinimalBytesOfBigEndian(init);
    }
  }

  /** The minimal encoding of a value below 256^k is at most k bytes long. */
  lemma {:induction false} MinimalBytesLength(n: nat, k: nat)
    requires n < Pow(256, k)
    ensures |MinimalBytes(n)| <= k
  {
    if n > 0 {
      assert k > 0;
      MinimalBytesLength(n / 256, k - 1);
    }
  }
}

/** The two `num_bigint` conversions behind `auth_digest`: `BigInt::from_signed_bytes_be`
    (big-endian two's complement) and `BigInt::to_str_radix(16)` (lowercase digits, a
    leading `-` for negative values, no zero padding), and a reader that takes such a
    string back to its integer. */
module BigIntHex {
  import opened Wrappers
  import opened Numeric

  function Pow256(n: nat): (r: nat)
    ensures r >= 1
  {
    if n == 0 then 1 else 0x100 * Pow256(n - 1)
  }

  function Pow16(n: nat): (r: nat)
    ensures r >= 1
  {
    if n == 0 then 1 else 0x10 * Pow16(n - 1)
  }

  lemma {:induction false} Pow256IsPow16(n: nat)
    ensures Pow256(n) == Pow16(2 * n)
  {
    if n > 0 {
      Pow256IsPow16(n - 1);
      assert Pow16(2 * n) == 0x10 * (0x10 * Pow16(2 * (n - 1)));
    }
  }

  /** x*p + u < (x+1)*p <= 256*p when x is a byte and u < p. */
  lemma ByteTimesBound(x: Byte, p: nat, u: nat)
    requires u < p
    ensures x * p + u < 0x100 * p
  {
  }

  /** Value of `b` as an unsigned big-endian number. */
  function UnsignedBE(b: seq<Byte>): (r: nat)
    ensures r < Pow256(|b|)
  {
    if |b| == 0 then 0
    else
      var u := UnsignedBE(b[1..]);
      ByteTimesBound(b[0], Pow256(|b| - 1), u);
      b[0] * Pow256(|b| - 1) + u
  }

  /** `BigInt::from_signed_bytes_be`: two's complement, so a set top bit means negative;
      no bytes at all means zero. */
  function SignedBE(b: seq<Byte>): int {
    if |b| > 0 && b[0] >= 0x80 then UnsignedBE(b) - Pow256(|b|) else UnsignedBE(b)
  }

  /** The value is negative exactly when the first byte has its top bit set. */
  lemma SignedBESign(b: seq<Byte>)
    ensures SignedBE(b) < 0 <==> |b| > 0 && b[0] >= 0x80
  {
  }

  /** Its magnitude fits in the byte count: |v| < 256^n. */
  lemma SignedBEMagnitude(b: seq<Byte>)
    ensures -(Pow256(|b|) as int) < SignedBE(b) < Pow256(|b|)
  {
    if |b| > 0 && b[0] >= 0x80 {
      var p := Pow256(|b| - 1);
      assert UnsignedBE(b) == b[0] * p + UnsignedBE(b[1..]);
      assert Pow256(|b|) == 0x100 * p;
      MulMonotone(1, b[0], p);
      assert UnsignedBE(b) >= p >= 1;
    }
  }

  predicate IsHexDigit(c: char) {
    '0' <= c <= '9' || 'a' <= c <= 'f'
  }

  function HexDigit(d: nat): (c: char)
    requires d < 0x10
    ensures IsHexDigit(c)
  {
    if d < 10 then (48 + d) as char else (87 + d) as char
  }

  function DigitValue(c: char): (d: nat)
    requires IsHexDigit(c)
    ensures d < 0x10
  {
    if c <= '9' then c as int - 48 else c as int - 87
  }

  /** Lowercase hex digits of `n`, most significant first, without leading zeros. */
  function ToHex(n: nat): (s: string)
    ensures 1 <= |s|
    ensures forall i :: 0 <= i < |s| ==> IsHexDigit(s[i])
    ensures s[0] == '0' <==> n == 0
    ensures n == 0 ==> s == "0"
    decreases n
  {
    if n < 0x10 then [HexDigit(n)] else ToHex(n / 0x10) + [HexDigit(n % 0x10)]
  }

  /** `BigInt::to_str_radix(16)`. */
  function ToStrRadix16(v: int): string {
    if v < 0 then "-" + ToHex(-v) else ToHex(v)
  }

  /** The digits after an optional leading minus sign. */
  function Magnitude(s: string): string {
    if |s| > 0 && s[0] == '-' then s[1..] else s
  }

  predicate IsHexString(s: string) {
    |s| > 0 && forall i :: 0 <= i < |s| ==> IsHexDigit(s[i])
  }

  function HexValue(s: string): nat
    requires forall i :: 0 <= i < |s| ==> IsHexDigit(s[i])
  {
    if |s| == 0 then 0 else HexValue(s[..|s| - 1]) * 0x10 + DigitValue(s[|s| - 1])
  }

  /** Reads a signed base-16 string (an optional `-`, then at least one hex digit). */
  function ParseSignedHex(s: string): Option<int> {
    if IsHexString(Magnitude(s)) then
      var m: int := HexValue(Magnitude(s));
      Some(if |s| > 0 && s[0] == '-' then -m else m)
    else None
  }

  lemma {:induction false} ToHexReadsBack(n: nat)
    ensures HexValue(ToHex(n)) == n
    decreases n
  {
    if n >= 0x10 {
      var s := ToHex(n);
      ToHexReadsBack(n / 0x10);
      assert s[..|s| - 1] == ToHex(n / 0x10);
      assert DigitValue(s[|s| - 1]) == n % 0x10;
    } else {
      assert DigitValue(HexDigit(n)) == n;
    }
  }

  /** The digit count of `n` is at most `k` whenever `n < 16^k`. */
  lemma {:induction false} ToHexLength(n: nat, k: nat)
    requires 1 <= k
    requires n < Pow16(k)
    ensures |ToHex(n)| <= k
    decreases n
  {
    if n >= 0x10 {
      assert Pow16(1) == 0x10;
      assert k != 1;
      assert Pow16(k) == 0x10 * Pow16(k - 1);
      assert n / 0x10 < Pow16(k - 1);
      ToHexLength(n / 0x10, k - 1);
    }
  }

  /** Reading the signed hex of `v` back gives `v`. */
  lemma ToStrRadix16ReadsBack(v: int)
    ensures ParseSignedHex(ToStrRadix16(v)) == Some(v)
  {
    var s := ToStrRadix16(v);
    if v < 0 {
      ToHexReadsBack(-v);
      assert Magnitude(s) == ToHex(-v);
    } else {
      ToHexReadsBack(v);
      assert Magnitude(s) == ToHex(v);
    }
  }

  /** The form `to_str_radix` produces: an optional `-`, then hex digits with no leading
      zero, and `0` only as the whole string `0` (so never `-0`). */
  predicate IsCanonicalHex(s: string) {
    IsHexString(Magnitude(s)) && (Magnitude(s)[0] == '0' ==> s == "0")
  }

  lemma DigitRoundTrip(c: char)
    requires IsHexDigit(c)
    ensures HexDigit(DigitValue(c)) == c
  {
  }

  /** A digit string without a leading zero is the `ToHex` of its own value. */
  lemma {:induction false} UnpaddedIsToHex(m: string)
    requires IsHexString(m)
    requires m[0] == '0' ==> m == "0"
    ensures m == ToHex(HexValue(m))
    decreases |m|
  {
    var d := DigitValue(m[|m| - 1]);
    DigitRoundTrip(m[|m| - 1]);
    if |m| == 1 {
      assert HexValue(m) == HexValue([]) * 0x10 + d;
    } else {
      var p := m[..|m| - 1];
      assert p[0] == m[0];
      UnpaddedIsToHex(p);
      assert HexValue(p) != 0;
      var n := HexValue(m);
      assert n == HexValue(p) * 0x10 + d;
      assert n / 0x10 == HexValue(p) && n % 0x10 == d;
      assert m == p + [m[|m| - 1]];
    }
  }

  /** Every canonical string is what `to_str_radix(16)` prints for the value it reads as:
      a value has exactly one canonical spelling. */
  lemma CanonicalIsToStrRadix16(s: string)
    requires IsCanonicalHex(s)
    ensures ParseSignedHex(s).Some?
    ensures s == ToStrRadix16(ParseSignedHex(s).value)
  {
    var m := Magnitude(s);
    UnpaddedIsToHex(m);
    if |s| > 0 && s[0] == '-' {
      assert m != "0";
      assert s == "-" + m;
    }
  }

  lemma ToStrRadix16Canonical(v: int)
    ensures IsCanonicalHex(ToStrRadix16(v))
  {
    if v < 0 {
      assert Magnitude(ToStrRadix16(v)) == ToHex(-v);
    }
  }

  predicate AllZero(b: seq<Byte>) {
    forall i :: 0 <= i < |b| ==> b[i] == 0
  }

  lemma AllZeroSplit(b: seq<Byte>)
    requires |b| > 0
    ensures AllZero(b) <==> b[0] == 0 && AllZero(b[1..])
  {
  }

  /** a <= b implies a*p <= b*p. */
  lemma MulMonotone(a: nat, b: nat, p: nat)
    requires a <= b
    ensures a * p <= b * p
  {
  }

  lemma {:induction false} UnsignedBEZero(b: seq<Byte>)
    ensures UnsignedBE(b) == 0 <==> AllZero(b)
  {
    if |b| > 0 {
      UnsignedBEZero(b[1..]);
      AllZeroSplit(b);
      var p := Pow256(|b| - 1);
      assert UnsignedBE(b) == b[0] * p + UnsignedBE(b[1..]);
      if b[0] > 0 {
        MulMonotone(1, b[0], p);
      }
    }
  }

  /** Two numbers written as a digit times a place value plus a smaller remainder agree
      digit for digit. */
  lemma PlaceValueUnique(x: nat, y: nat, u: nat, v: nat, p: nat)
    requires u < p && v < p
    requires x * p + u == y * p + v
    ensures x == y && u == v
  {
    if x < y {
      MulMonotone(x + 1, y, p);
    } else if y < x {
      MulMonotone(y + 1, x, p);
    }
  }

  lemma {:induction false} UnsignedBEInjective(a: seq<Byte>, b: seq<Byte>)
    requires |a| == |b|
    requires UnsignedBE(a) == UnsignedBE(b)
    ensures a == b
  {
    if |a| > 0 {
      PlaceValueUnique(a[0], b[0], UnsignedBE(a[1..]), UnsignedBE(b[1..]), Pow256(|a| - 1));
      UnsignedBEInjective(a[1..], b[1..]);
      assert a == [a[0]] + a[1..];
      assert b == [b[0]] + b[1..];
    }
  }

  /** Two byte strings of the same length have the same two's-complement value only if equal. */
  lemma SignedBEInjective(a: seq<Byte>, b: seq<Byte>)
    requires |a| == |b|
    requires SignedBE(a) == SignedBE(b)
    ensures a == b
  {
    SignedBESign(a);
    SignedBESign(b);
    UnsignedBEInjective(a, b);
  }

  /** Appending a low-order byte shifts the value one place up. */
  lemma {:induction false} UnsignedBEAppend(b: seq<Byte>, d: Byte)
    ensures UnsignedBE(b + [d]) == UnsignedBE(b) * 0x100 + d
    decreases |b|
  {
    if |b| > 0 {
      var x, p, r := b[0], Pow256(|b| - 1), UnsignedBE(b[1..]);
      assert (b + [d])[1..] == b[1..] + [d];
      UnsignedBEAppend(b[1..], d);
      assert UnsignedBE(b + [d]) == x * Pow256(|b|) + (r * 0x100 + d);
      assert Pow256(|b|) == 0x100 * p;
      assert x * (0x100 * p) == (x * p) * 0x100;
      assert UnsignedBE(b) == x * p + r;
    } else {
      assert b + [d] == [d];
    }
  }

  /** `BigUint::to_bytes_be`: the shortest unsigned big-endian encoding; zero is one zero byte. */
  function ToBytesBE(n: nat): (b: seq<Byte>)
    ensures UnsignedBE(b) == n
    ensures 1 <= |b|
    ensures b[0] == 0 <==> n == 0
    decreases n
  {
    if n < 0x100 then [n]
    else
      var high := ToBytesBE(n / 0x100);
      UnsignedBEAppend(high, n % 0x100);
      high + [n % 0x100]
  }
}

/**
 * Fixed-width hexadecimal formatting (num2hex) and the hex decoding that
 * Buffer.from(text, 'hex') performs, which together turn frame parameters
 * into frame bytes.
 */
module HexCodec {
  import opened Wrappers
  import opened Codes
  import opened Bytes

  /** Number.MAX_SAFE_INTEGER, 2^53 - 1. */
  const MAX_SAFE_INTEGER: int := 0x1F_FFFF_FFFF_FFFF

  predicate IsHexChar(c: char) {
    '0' <= c <= '9' || 'A' <= c <= 'F' || 'a' <= c <= 'f'
  }

  function DigitValue(c: char): (v: nat)
    requires IsHexChar(c)
    ensures v < 16
  {
    if '0' <= c <= '9' then c as int - 48
    else if 'A' <= c <= 'F' then c as int - 55
    else c as int - 87
  }

  /** The upper-case hex digit of d. */
  function Digit(d: nat): (c: char)
    requires d < 16
    ensures IsHexChar(c) && DigitValue(c) == d
  {
    if d < 10 then (48 + d) as char else (55 + d) as char
  }

  /** Number.prototype.toString(16) of a natural, upper-cased. */
  function HexOf(n: nat): (r: string)
    ensures |r| >= 1
  {
    if n < 16 then [Digit(n)] else HexOf(n / 16) + [Digit(n % 16)]
  }

  /** toString(16) writes hex digits only, with no leading zero. */
  lemma {:induction false} HexOfDigits(n: nat)
    ensures forall i :: 0 <= i < |HexOf(n)| ==> IsHexChar(HexOf(n)[i])
    ensures |HexOf(n)| > 1 ==> HexOf(n)[0] != '0'
  {
    if n >= 16 {
      HexOfDigits(n / 16);
    }
  }

  /** n.toString(16).toUpperCase() for any integer n, with its minus sign. */
  function Signed(n: int): string {
    if n < 0 then "-" + HexOf(-n) else HexOf(n)
  }

  function Zeros(k: nat): (r: string)
    ensures |r| == k && forall i :: 0 <= i < k ==> r[i] == '0'
  {
    if k == 0 then [] else Zeros(k - 1) + ['0']
  }

  /** String.prototype.padStart(width, '0'). */
  function PadStart(s: string, width: nat): string {
    if |s| >= width then s else Zeros(width - |s|) + s
  }

  /** The value of a string of hex digits read most significant first (parseInt(s, 16)). */
  function HexValue(s: string): nat
    requires forall i :: 0 <= i < |s| ==> IsHexChar(s[i])
  {
    if s == [] then 0 else HexValue(s[..|s| - 1]) * 16 + DigitValue(s[|s| - 1])
  }

  /** num2hex once its range checks have passed. */
  function Hex(n: int, bytes: nat): string {
    PadStart(Signed(n), 2 * bytes)
  }

  /**
   * num2hex(n, bytes): the upper-case hex of n left-padded with '0' to at
   * least 2*bytes characters and never truncated; it throws when n is above
   * MAX_SAFE_INTEGER or bytes is outside 1..8.  The width defaults to 2 bytes.
   */
  function Num2Hex(n: int, bytes: int := 2): (r: Result<string, Error>)
    ensures r.Failure? <==> n > MAX_SAFE_INTEGER || bytes < 1 || bytes > 8
    ensures r.Failure? ==> r.error == if n > MAX_SAFE_INTEGER then NumberTooLarge else InvalidByteCount
    ensures r.Success? ==>
      var pad := if |Signed(n)| >= 2 * bytes then 0 else 2 * bytes - |Signed(n)|;
      && |r.value| == pad + |Signed(n)|
      && r.value[pad..] == Signed(n)
      && forall i :: 0 <= i < pad ==> r.value[i] == '0'
  {
    if n > MAX_SAFE_INTEGER then Failure(NumberTooLarge)
    else if bytes < 1 || bytes > 8 then Failure(InvalidByteCount)
    else Success(Hex(n, bytes))
  }

  /** The k-digit hex of n, most significant digit first (n mod 16^k). */
  function FixedHex(n: nat, k: nat): (r: string)
    ensures |r| == k && forall i :: 0 <= i < k ==> IsHexChar(r[i])
  {
    if k == 0 then [] else FixedHex(n / 16, k - 1) + [Digit(n % 16)]
  }

  /** An even number of hex digits: text that Buffer.from decodes in full. */
  predicate HexPairs(s: string) {
    |s| % 2 == 0 && forall i :: 0 <= i < |s| ==> IsHexChar(s[i])
  }

  /**
   * Buffer.from(s, 'hex'): one byte per pair of hex digits, stopping at the
   * first pair that is not two hex digits; an odd trailing digit is dropped.
   */
  function BytesFromHex(s: string): (r: seq<uint8>)
    ensures |r| <= |s| / 2
    ensures HexPairs(s) ==> |r| == |s| / 2
  {
    if |s| < 2 || !IsHexChar(s[0]) || !IsHexChar(s[1]) then []
    else [DigitValue(s[0]) * 16 + DigitValue(s[1])] + BytesFromHex(s[2..])
  }

  function Pow16(k: nat): (r: nat)
    ensures r >= 1
  {
    if k == 0 then 1 else 16 * Pow16(k - 1)
  }

  lemma {:induction false} Pow16Twice(w: nat)
    ensures Pow16(2 * w) == Pow256(w)
  {
    if w > 0 {
      Pow16Twice(w - 1);
      assert Pow16(2 * w) == 16 * (16 * Pow16(2 * (w - 1)));
    }
  }

  /** toString(16) gives the base-16 digits of n: reading them back yields n. */
  lemma {:induction false} HexOfValue(n: nat)
    ensures (forall i :: 0 <= i < |HexOf(n)| ==> IsHexChar(HexOf(n)[i])) && HexValue(HexOf(n)) == n
  {
    HexOfDigits(n);
    if n >= 16 {
      HexOfDigits(n / 16);
      HexOfValue(n / 16);
      var s := HexOf(n);
      assert s[..|s| - 1] == HexOf(n / 16);
    }
  }

  /** Leading zeros do not change a hex reading. */
  lemma {:induction false} ZerosValue(k: nat, s: string)
    requires forall i :: 0 <= i < |s| ==> IsHexChar(s[i])
    ensures forall i :: 0 <= i < |Zeros(k) + s| ==> IsHexChar((Zeros(k) + s)[i])
    ensures HexValue(Zeros(k) + s) == HexValue(s)
  {
    if s == [] {
      ZerosOnly(k);
      assert Zeros(k) + s == Zeros(k);
    } else {
      var t := Zeros(k) + s;
      assert t[..|t| - 1] == Zeros(k) + s[..|s| - 1];
      ZerosValue(k, s[..|s| - 1]);
    }
  }

  lemma {:induction false} ZerosOnly(k: nat)
    ensures HexValue(Zeros(k)) == 0
  {
    if k > 0 {
      assert Zeros(k)[..k - 1] == Zeros(k - 1);
      ZerosOnly(k - 1);
    }
  }

  /** num2hex's output, read back as hex, is n again, whatever the padding. */
  lemma Num2HexValue(n: nat, bytes: int)
    requires n <= MAX_SAFE_INTEGER && 1 <= bytes <= 8
    ensures Num2Hex(n, bytes).Success?
    ensures forall i :: 0 <= i < |Num2Hex(n, bytes).value| ==> IsHexChar(Num2Hex(n, bytes).value[i])
    ensures HexValue(Num2Hex(n, bytes).value) == n
  {
    HexOfValue(n);
    HexOfDigits(n);
    var s := HexOf(n);
    if |s| < 2 * bytes {
      ZerosValue(2 * bytes - |s|, s);
    }
  }

  lemma {:induction false} FixedHexOfZero(k: nat)
    ensures FixedHex(0, k) == Zeros(k)
  {
    if k > 0 {
      FixedHexOfZero(k - 1);
      assert Digit(0) == '0';
    }
  }

  lemma PadStartSnoc(s: string, d: char, k: nat)
    requires k >= 1
    ensures PadStart(s + [d], k) == PadStart(s, k - 1) + [d]
  {
    if |s| + 1 < k {
      assert Zeros(k - |s| - 1) + (s + [d]) == (Zeros(k - 1 - |s|) + s) + [d];
    }
  }

  /** For n below 16^k, padding toString(16) to k digits is the k-digit hex of n. */
  lemma {:induction false} PaddedIsFixed(n: nat, k: nat)
    requires k >= 1 && n < Pow16(k)
    ensures PadStart(HexOf(n), k) == FixedHex(n, k)
  {
    if n < 16 {
      FixedHexOfZero(k - 1);
      assert FixedHex(n, k) == FixedHex(0, k - 1) + [Digit(n)];
    } else {
      assert k >= 2;
      PaddedIsFixed(n / 16, k - 1);
      PadStartSnoc(HexOf(n / 16), Digit(n % 16), k);
    }
  }

  lemma {:induction false} BytesFromHexAppend(a: string, b: string)
    requires HexPairs(a)
    ensures BytesFromHex(a + b) == BytesFromHex(a) + BytesFromHex(b)
  {
    if a != [] {
      assert |a| >= 2 && IsHexChar(a[0]) && IsHexChar(a[1]);
      assert (a + b)[0] == a[0] && (a + b)[1] == a[1];
      assert (a + b)[2..] == a[2..] + b;
      assert HexPairs(a[2..]);
      BytesFromHexAppend(a[2..], b);
    } else {
      assert a + b == b;
    }
  }

  lemma DivMod256(n: nat)
    ensures n / 16 / 16 == n / 256
    ensures (n / 16) % 16 * 16 + n % 16 == n % 256
  {
    var q, r := n / 256, n % 256;
    assert n == 256 * q + r;
    var a, b := r / 16, r % 16;
    assert r == 16 * a + b && a < 16;
    assert n == 16 * (16 * q + a) + b;
    assert n / 16 == 16 * q + a;
    assert n % 16 == b;
  }

  /** 2w hex digits of n decode to the w big-endian bytes of n. */
  lemma {:induction false} FixedHexBytes(n: nat, w: nat)
    requires n < Pow256(w)
    ensures BytesFromHex(FixedHex(n, 2 * w)) == ToBE(n, w)
  {
    if w > 0 {
      DivMod256(n);
      var hi := FixedHex(n / 256, 2 * (w - 1));
      var d1, d0 := Digit(n / 16 % 16), Digit(n % 16);
      assert FixedHex(n, 2 * w) == hi + [d1, d0];
      FixedHexBytes(n / 256, w - 1);
      BytesFromHexAppend(hi, [d1, d0]);
      assert BytesFromHex([d1, d0]) == [n % 256];
    }
  }

  /**
   * For 0 <= n < 256^bytes, num2hex(n, bytes) has exactly 2*bytes digits and
   * Buffer.from decodes it to the bytes-wide big-endian form of n.
   */
  lemma Num2HexFixed(n: nat, bytes: nat)
    requires 1 <= bytes <= 8 && n < Pow256(bytes) && n <= MAX_SAFE_INTEGER
    ensures Num2Hex(n, bytes) == Success(FixedHex(n, 2 * bytes))
    ensures |Num2Hex(n, bytes).value| == 2 * bytes && HexPairs(Num2Hex(n, bytes).value)
    ensures BytesFromHex(Num2Hex(n, bytes).value) == ToBE(n, bytes)
  {
    Pow16Twice(bytes);
    PaddedIsFixed(n, 2 * bytes);
    FixedHexBytes(n, bytes);
  }
}

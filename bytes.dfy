/**
 * Bytes and the big-endian integer reads and writes of Node's Buffer
 * (readUIntBE, readIntBE, writeUIntBE) that the engine uses.
 */
module Bytes {
  type uint8 = x: int | 0 <= x < 256

  /** 256 to the power w. */
  function Pow256(w: nat): (r: nat)
    ensures r >= 1
  {
    if w == 0 then 1 else 256 * Pow256(w - 1)
  }

  /** Buffer.readUIntBE over the whole of s: the unsigned big-endian value. */
  function UIntBE(s: seq<uint8>): (r: nat)
    ensures r < Pow256(|s|)
  {
    if s == [] then 0 else UIntBE(s[..|s| - 1]) * 256 + s[|s| - 1]
  }

  /** Buffer.writeUIntBE of n into w bytes, for an n that fits. */
  function ToBE(n: nat, w: nat): (r: seq<uint8>)
    requires n < Pow256(w)
    ensures |r| == w && UIntBE(r) == n
  {
    if w == 0 then []
    else
      var r := ToBE(n / 256, w - 1) + [n % 256];
      assert r[..|r| - 1] == ToBE(n / 256, w - 1);
      r
  }

  /** Buffer.readIntBE over the whole of s: the two's-complement value. */
  function IntBE(s: seq<uint8>): (r: int)
    requires |s| >= 1
    ensures -(Pow256(|s|) as int) / 2 <= r < Pow256(|s|) / 2
    ensures r >= 0 <==> s[0] < 128
  {
    SignByte(s);
    if s[0] >= 128 then UIntBE(s) - Pow256(|s|) else UIntBE(s)
  }

  /** The leading byte of a big-endian value weighs 256^(|s|-1). */
  lemma {:induction false} LeadingByte(s: seq<uint8>)
    requires |s| >= 1
    ensures UIntBE(s) == s[0] * Pow256(|s| - 1) + UIntBE(s[1..])
  {
    if |s| == 1 {
      assert s[1..] == [];
      assert s[..0] == [];
    } else {
      var init := s[..|s| - 1];
      LeadingByte(init);
      assert init[1..] == s[1..][..|s[1..]| - 1];
      var a, b, p := UIntBE(init[1..]), s[|s| - 1], Pow256(|s| - 2);
      assert UIntBE(s[1..]) == a * 256 + b;
      assert UIntBE(s) == UIntBE(init) * 256 + b;
      Regroup(s[0], p, a, b);
    }
  }

  lemma Regroup(x: int, p: int, a: int, b: int)
    ensures (x * p + a) * 256 + b == x * (256 * p) + (a * 256 + b)
  {
  }

  /** The leading byte decides the sign of the two's-complement reading. */
  lemma SignByte(s: seq<uint8>)
    requires |s| >= 1
    ensures Pow256(|s|) == 256 * Pow256(|s| - 1)
    ensures s[0] >= 128 <==> UIntBE(s) >= Pow256(|s|) / 2
  {
    LeadingByte(s);
    var lo, p := UIntBE(s[1..]), Pow256(|s| - 1);
    assert Pow256(|s|) == 256 * p;
    assert Pow256(|s|) / 2 == 128 * p;
    assert lo < p;
    if s[0] >= 128 {
      MulMono(128, s[0], p);
    } else {
      MulMono(s[0], 127, p);
    }
  }

  lemma MulMono(a: nat, b: nat, p: nat)
    requires a <= b
    ensures a * p <= b * p
  {
  }
}

/** Bytes, and numbers stored in them with the least byte first. */
module Bytes {

  type Byte = x: int | 0 <= x < 256

  function Power(w: nat): nat {
    if w == 0 then 1 else 256 * Power(w - 1)
  }

  function Digits(v: nat, w: nat): (s: seq<Byte>)
    ensures |s| == w
  {
    if w == 0 then [] else [v % 256] + Digits(v / 256, w - 1)
  }

  function Number(s: seq<Byte>): nat {
    if s == [] then 0 else s[0] + 256 * Number(s[1..])
  }

  lemma {:induction false} NumberOfDigits(v: nat, w: nat)
    requires v < Power(w)
    ensures Number(Digits(v, w)) == v
  {
    if w > 0 {
      NumberOfDigits(v / 256, w - 1);
      assert Digits(v, w)[1..] == Digits(v / 256, w - 1);
    }
  }

  lemma {:induction false} NumberIsBounded(s: seq<Byte>)
    ensures Number(s) < Power(|s|)
  {
    if s != [] { NumberIsBounded(s[1..]); }
  }

  /** The least byte comes first. */
  lemma LeastFirst(s: seq<Byte>)
    requires |s| == 4
    ensures var a: nat, b: nat, c: nat, d: nat := s[0], s[1], s[2], s[3];
            Number(s) == a + 0x100 * b + 0x1_0000 * c + 0x100_0000 * d
  {
    assert Number(s[3..]) == s[3] && s[2..][1..] == s[3..] && s[1..][1..] == s[2..];
    assert Number(s[2..]) == s[2] + 256 * Number(s[3..]) && Number(s[1..]) == s[1] + 256 * Number(s[2..]);
  }

  lemma CutAfter<T>(a: seq<T>, b: seq<T>, c: seq<T>)
    ensures (a + b + c)[..|a|] == a && (a + b + c)[|a|..] == b + c
  {
  }

  const LIMIT: nat := 0x1_0000_0000_0000_0000

  lemma Limits()
    ensures Power(8) == LIMIT && Power(4) == 0x1_0000_0000
  {
    assert Power(4) == 256 * (256 * (256 * (256 * Power(0))));
    assert Power(8) == 256 * (256 * (256 * (256 * Power(4))));
  }
}

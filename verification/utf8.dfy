/** The UTF-8 codec of the character set converter. Bytes are 0 to 255, but the checks for overlong and
    refused sequences read them as plain characters, which are signed on some machines. */
module Utf8 {
  import opened Bytes

  // ---------- encoding ----------

  /** The bytes for a code point. */
  function Encoding(c: nat): (s: seq<Byte>)
    ensures 1 <= |s| <= 4
  {
    if c <= 0x7F then [c]
    else if c <= 0x7FF then [c / 64 % 32 + 0xC0, c % 64 + 0x80]
    else if c <= 0xFFFF then [c / 4096 % 16 + 0xE0, c / 64 % 64 + 0x80, c % 64 + 0x80]
    else if c <= 0x10FFFF then [c / 262144 % 8 + 0xF0, c / 4096 % 64 + 0x80, c / 64 % 64 + 0x80, c % 64 + 0x80]
    else [0x3F]
  }

  /** Writes the bytes for a code point, and returns their number. */
  method EncodeInto(outb: array<Byte>, at: nat, c: nat) returns (k: nat)
    requires at + |Encoding(c)| <= outb.Length
    modifies outb
    ensures k == |Encoding(c)| && outb[..at + k] == old(outb[..at]) + Encoding(c)
    ensures outb[at + k..] == old(outb[at + k..])
  {
    if c <= 0x7F {
      outb[at] := c;
      return 1;
    } else if c <= 0x7FF {
      outb[at], outb[at + 1] := c / 64 % 32 + 0xC0, c % 64 + 0x80;
      return 2;
    } else if c <= 0xFFFF {
      outb[at], outb[at + 1], outb[at + 2] := c / 4096 % 16 + 0xE0, c / 64 % 64 + 0x80, c % 64 + 0x80;
      return 3;
    } else if c <= 0x10FFFF {
      outb[at], outb[at + 1] := c / 262144 % 8 + 0xF0, c / 4096 % 64 + 0x80;
      outb[at + 2], outb[at + 3] := c / 64 % 64 + 0x80, c % 64 + 0x80;
      return 4;
    } else {
      outb[at] := 0x3F;
      return 1;
    }
  }

  // ---------- decoding ----------

  /** The length that the leading bits announce, and -1 for a byte that cannot lead. */
  function LeadLength(b: Byte): int {
    if b / 32 == 6 then 2 else if b / 16 == 14 then 3 else if b / 8 == 30 then 4
    else if b / 4 == 62 then 5 else if b / 2 == 126 then 6 else -1
  }

  predicate IsTail(b: Byte) {
    0x80 <= b <= 0xBF
  }

  /** A byte read as a plain character. */
  function Plain(signed: bool, b: Byte): int {
    if signed && b >= 0x80 then b - 0x100 else b
  }

  /** Shifts to the right are divisions that round down, whatever the sign. */
  predicate Overlong(signed: bool, s: seq<Byte>, n: int)
    requires n <= |s|
  {
    if n == 2 then Plain(signed, s[0]) / 2 == 0x60 && Plain(signed, s[1]) / 64 == 2
    else if n == 3 then
      Plain(signed, s[0]) == 0xE0 && Plain(signed, s[1]) / 32 == 4 && Plain(signed, s[2]) / 64 == 2
    else if n == 4 then
      Plain(signed, s[0]) == 0xF0 && Plain(signed, s[1]) / 16 == 8 && Plain(signed, s[2]) / 64 == 2 &&
      Plain(signed, s[3]) / 64 == 2
    else false
  }

  predicate Surrogate(signed: bool, s: seq<Byte>, n: int)
    requires n <= |s|
  {
    n == 3 && Plain(signed, s[0]) == 0xED && 0xA0 <= Plain(signed, s[1]) <= 0xBF
  }

  predicate Illegal(signed: bool, s: seq<Byte>, n: int)
    requires n <= |s|
  {
    n == 3 && Plain(signed, s[0]) == 0xEF && Plain(signed, s[1]) == 0xBF && 0xBE <= Plain(signed, s[2]) <= 0xBF
  }

  /** The value gathered from the lead bits `c` and the tails. */
  function Gathered(c: nat, tails: seq<Byte>): nat
    decreases |tails|
  {
    if tails == [] then c else Gathered(c, tails[..|tails| - 1]) * 64 + tails[|tails| - 1] % 64
  }

  function LeadBits(b: Byte, n: int): nat
    requires 2 <= n <= 4
  {
    b % (if n == 2 then 32 else if n == 3 then 16 else 8)
  }

  datatype Decoded = Char(c: nat, n: nat) | Invalid | Starved

  /** What the first character of a non-empty input decodes to. */
  function Decode(signed: bool, s: seq<Byte>): Decoded
    requires s != []
  {
    var n := LeadLength(s[0]);
    if s[0] <= 0x7F then Char(s[0], 1)
    else if n == -1 || n > |s| then Starved
    else if n < 5 && !Overlong(signed, s, n) && !Surrogate(signed, s, n) && !Illegal(signed, s, n) &&
    forall i | 1 <= i < n :: IsTail(s[i])
    then Char(Gathered(LeadBits(s[0], n), s[1..n]), n)
    else Invalid
  }

  const MINUS_ONE_UNSIGNED: int := 0xFFFF_FFFF

  /** The number of bytes of the first character and its value; -1 if invalid, -2 if more input
      is needed. A byte that cannot lead has length -1, which is compared without a sign. */
  method DecodeFirst(signed: bool, s: seq<Byte>) returns (r: int, c: nat)
    requires 0 < |s| < MINUS_ONE_UNSIGNED
    ensures match Decode(signed, s)
            case Char(c', n) => r == n && c == c'
            case Invalid => r == -1
            case Starved => r == -2
  {
    c := 0;
    var n := -1;
    if s[0] <= 0x7F { return 1, s[0]; }
    if s[0] / 32 == 6 { n := 2; }
    else if s[0] / 16 == 14 { n := 3; }
    else if s[0] / 8 == 30 { n := 4; }
    else if s[0] / 4 == 62 { n := 5; }
    else if s[0] / 2 == 126 { n := 6; }
    if (if n < 0 then MINUS_ONE_UNSIGNED else n) > |s| { return -2, c; }
    if 1 < n < 5 {
      if Overlong(signed, s, n) || Surrogate(signed, s, n) || Illegal(signed, s, n) { return -1, c; }
      c := LeadBits(s[0], n);
      ghost var lead := c;
      var i := 1;
      while i < n
        invariant 1 <= i <= n && c == Gathered(lead, s[1..i]) && forall j | 1 <= j < i :: IsTail(s[j])
      {
        if s[i] < 0x80 || s[i] > 0xBF { return -1, c; }
        assert s[1..i + 1][..i - 1] == s[1..i];
        c := c * 64 + s[i] % 64;
        i := i + 1;
      }
      return n, c;
    }
    return -1, c;
  }

  // ---------- the standard ----------

  /** Section 4 of RFC 3629: one well-formed character. */
  predicate WellFormed(s: seq<Byte>) {
    match |s|
    case 1 => s[0] <= 0x7F
    case 2 => 0xC2 <= s[0] <= 0xDF && IsTail(s[1])
    case 3 =>
      IsTail(s[2]) &&
      ((s[0] == 0xE0 && 0xA0 <= s[1] <= 0xBF) || (0xE1 <= s[0] <= 0xEC && IsTail(s[1])) ||
       (s[0] == 0xED && 0x80 <= s[1] <= 0x9F) || (0xEE <= s[0] <= 0xEF && IsTail(s[1])))
    case 4 =>
      IsTail(s[2]) && IsTail(s[3]) &&
      ((s[0] == 0xF0 && 0x90 <= s[1] <= 0xBF) || (0xF1 <= s[0] <= 0xF3 && IsTail(s[1])) ||
       (s[0] == 0xF4 && 0x80 <= s[1] <= 0x8F))
    case _ => false
  }

  /** The two code points the decoder refuses although the standard has them. */
  predicate Refused(c: nat) {
    c == 0xFFFE || c == 0xFFFF
  }

  predicate IsScalar(c: int) {
    0 <= c < 0x110000 && !(0xD800 <= c < 0xE000)
  }

  lemma Gathers(c: nat, s: seq<Byte>)
    ensures |s| == 1 ==> Gathered(c, s) == c * 64 + s[0] % 64
    ensures |s| == 2 ==> Gathered(c, s) == (c * 64 + s[0] % 64) * 64 + s[1] % 64
    ensures |s| == 3 ==> Gathered(c, s) == ((c * 64 + s[0] % 64) * 64 + s[1] % 64) * 64 + s[2] % 64
  {
    if |s| == 1 { assert s[..0] == []; }
    if |s| == 2 { Gathers(c, s[..1]); }
    if |s| == 3 { Gathers(c, s[..2]); }
  }

  /** The first character of `s` is all of `s`, and is a scalar value. */
  predicate Takes(signed: bool, s: seq<Byte>)
    requires s != []
  {
    Decode(signed, s).Char? && Decode(signed, s).n == |s| && IsScalar(Decode(signed, s).c)
  }

  predicate Accepted(s: seq<Byte>) {
    WellFormed(s) && s != [0xEF, 0xBF, 0xBE] && s != [0xEF, 0xBF, 0xBF]
  }

  /** A longer form than the value needs. */
  predicate LongForm(s: seq<Byte>) {
    match |s|
    case 2 => 0xC0 <= s[0] <= 0xC1 && IsTail(s[1])
    case 3 => s[0] == 0xE0 && 0x80 <= s[1] <= 0x9F && IsTail(s[2])
    case 4 => s[0] == 0xF0 && 0x80 <= s[1] <= 0x8F && IsTail(s[2]) && IsTail(s[3])
    case _ => false
  }

  function Minus(b: Byte, base: nat): int {
    b as int - base
  }

  /** The value of encoded bytes, by arithmetic alone. */
  function Value(s: seq<Byte>): int {
    match |s|
    case 1 => Minus(s[0], 0)
    case 2 => Minus(s[0], 0xC0) * 64 + Minus(s[1], 0x80)
    case 3 => (Minus(s[0], 0xE0) * 64 + Minus(s[1], 0x80)) * 64 + Minus(s[2], 0x80)
    case 4 => ((Minus(s[0], 0xF0) * 64 + Minus(s[1], 0x80)) * 64 + Minus(s[2], 0x80)) * 64 + Minus(s[3], 0x80)
    case _ => 0
  }

  /** What gets through where plain characters are signed, for none of the checks ever holds: the range
      check is all that is left, and stops overlong surrogates. */
  predicate LetThrough(s: seq<Byte>) {
    (LongForm(s) && IsScalar(Value(s))) || s == [0xEF, 0xBF, 0xBE] || s == [0xEF, 0xBF, 0xBF]
  }

  /** What the decoder should take, and what it makes of it. */
  predicate DecodesRight(signed: bool, s: seq<Byte>)
    requires s != []
  {
    (Takes(signed, s) <==> Accepted(s) || (signed && LetThrough(s))) &&
    (Takes(signed, s) ==>
       var e := Encoding(Decode(signed, s).c);
       |e| <= |s| && (e == s <==> !LongForm(s)) && (LongForm(s) ==> |e| < |s|))
  }

  lemma SignedChecks(s: seq<Byte>, n: int)
    requires n <= |s| && s != [] && s[0] >= 0x80
    ensures !Overlong(true, s, n) && !Surrogate(true, s, n) && !Illegal(true, s, n)
  {
  }

  /** A lead byte with as many tails as it announces. */
  predicate Shaped(s: seq<Byte>) {
    2 <= |s| <= 4 && LeadLength(s[0]) == |s| && forall i | 1 <= i < |s| :: IsTail(s[i])
  }

  lemma ShapedValue(s: seq<Byte>)
    requires Shaped(s)
    ensures Value(s) >= 0 && Gathered(LeadBits(s[0], |s|), s[1..]) == Value(s)
  {
    hide Gathered;
    Gathers(LeadBits(s[0], |s|), s[1..]);
  }

  /** The decoder takes what has the right shape and passes its checks. */
  lemma DecodeIs(signed: bool, s: seq<Byte>)
    requires 2 <= |s| <= 4
    ensures var n := |s|;
            Decode(signed, s).Char? && Decode(signed, s).n == n <==>
            Shaped(s) && !Overlong(signed, s, n) && !Surrogate(signed, s, n) && !Illegal(signed, s, n)
    ensures Decode(signed, s).Char? && Decode(signed, s).n == |s| ==> Decode(signed, s).c == Value(s)
  {
    hide Gathered, Overlong, Surrogate, Illegal, Value;
    if Shaped(s) {
      assert s[1..|s|] == s[1..];
      ShapedValue(s);
    }
  }

  /** Where plain characters are unsigned the checks find the overlong forms, surrogates, and the refused code
      points. */
  lemma UnsignedChecks(s: seq<Byte>)
    requires Shaped(s)
    ensures Overlong(false, s, |s|) <==> LongForm(s)
    ensures Illegal(false, s, |s|) <==> s == [0xEF, 0xBF, 0xBE] || s == [0xEF, 0xBF, 0xBF]
    ensures Surrogate(false, s, |s|) ==> !IsScalar(Value(s))
  {
  }

  /** The value of three bytes, taken apart again. */
  lemma ThreeParts(a: nat, b: nat, d: nat)
    requires a < 16 && b < 64 && d < 64
    ensures var c := (a * 64 + b) * 64 + d; c / 4096 % 16 == a && c / 64 % 64 == b && c % 64 == d && c < 65536
    ensures var c := (a * 64 + b) * 64 + d;
            (c >= 0x800 <==> a > 0 || b >= 32) && (0xD800 <= c < 0xE000 <==> a == 13 && b >= 32)
  {
    var c := (a * 64 + b) * 64 + d;
    assert c / 64 == a * 64 + b;
    assert c / 4096 == a;
  }

  lemma FourParts(a: nat, b: nat, d: nat, e: nat)
    requires a < 8 && b < 64 && d < 64 && e < 64
    ensures var c := ((a * 64 + b) * 64 + d) * 64 + e;
            c / 262144 % 8 == a && c / 4096 % 64 == b && c / 64 % 64 == d && c % 64 == e
    ensures var c := ((a * 64 + b) * 64 + d) * 64 + e;
            (c >= 0x10000 <==> a > 0 || b >= 16) && (c < 0x110000 <==> a < 4 || (a == 4 && b < 16))
  {
    var c := ((a * 64 + b) * 64 + d) * 64 + e;
    assert c / 64 == (a * 64 + b) * 64 + d;
    assert c / 4096 == a * 64 + b;
    assert c / 262144 == a;
  }

  /** Encoding a value gives the bytes it came from, or fewer if they were an overlong form. */
  ghost predicate EncodesBack(s: seq<Byte>) {
    Value(s) >= 0 &&
    (IsScalar(Value(s)) ==>
       var e := Encoding(Value(s)); |e| <= |s| && (e == s <==> !LongForm(s)) && (LongForm(s) ==> |e| < |s|)) &&
    (WellFormed(s) <==> IsScalar(Value(s)) && !LongForm(s))
  }

  lemma TwoBytes(s: seq<Byte>)
    requires Shaped(s) && |s| == 2
    ensures EncodesBack(s)
  {
  }

  lemma ThreeBytes(s: seq<Byte>)
    requires Shaped(s) && |s| == 3
    ensures EncodesBack(s)
  {
    ThreeParts(s[0] - 0xE0, s[1] - 0x80, s[2] - 0x80);
  }

  lemma FourBytes(s: seq<Byte>)
    requires Shaped(s) && |s| == 4
    ensures EncodesBack(s)
  {
    FourParts(s[0] - 0xF0, s[1] - 0x80, s[2] - 0x80, s[3] - 0x80);
  }

  lemma AcceptedAreShaped(s: seq<Byte>)
    requires |s| >= 2 && (Accepted(s) || LetThrough(s))
    ensures Shaped(s) && (LetThrough(s) && !LongForm(s) ==> WellFormed(s))
  {
  }

  lemma OtherLengths(signed: bool, s: seq<Byte>)
    requires |s| == 1 || |s| >= 5
    ensures DecodesRight(signed, s)
  {
    hide Gathered, Overlong, Surrogate, Illegal;
  }

  /** The decoder with the range check takes exactly the well-formed characters but the two refused
      ones, and where plain characters are signed also those two and overlong forms. Encoding the value
      gives the same bytes again, unless they are an overlong form, which gets shorter. */
  lemma DecodesWellFormed(signed: bool, s: seq<Byte>)
    requires s != []
    ensures DecodesRight(signed, s)
  {
    if |s| == 1 || |s| >= 5 {
      OtherLengths(signed, s);
    } else {
      hide Gathered, Overlong, Surrogate, Illegal, Value, WellFormed, LongForm, Encoding, Shaped, IsScalar, Decode;
      DecodeIs(signed, s);
      if Shaped(s) {
        if |s| == 2 { TwoBytes(s); } else if |s| == 3 { ThreeBytes(s); } else { FourBytes(s); }
        ShapedChecks(signed, s);
      }
      if Accepted(s) || LetThrough(s) { AcceptedAreShaped(s); }
    }
  }

  lemma ShapedChecks(signed: bool, s: seq<Byte>)
    requires Shaped(s)
    ensures signed ==> !Overlong(signed, s, |s|) && !Surrogate(signed, s, |s|) && !Illegal(signed, s, |s|)
    ensures !signed ==>
              (Overlong(signed, s, |s|) <==> LongForm(s)) && (Surrogate(signed, s, |s|) ==> !IsScalar(Value(s))) &&
              (Illegal(signed, s, |s|) <==> s == [0xEF, 0xBF, 0xBE] || s == [0xEF, 0xBF, 0xBF])
  {
    hide Overlong, Surrogate, Illegal, LongForm, Value, IsScalar;
    if signed { SignedChecks(s, |s|); } else { UnsignedChecks(s); }
  }

  /** Every other scalar value decodes from its encoding, whatever comes after. */
  lemma EncodingDecodes(signed: bool, c: nat, rest: seq<Byte>)
    requires IsScalar(c) && (signed || !Refused(c))
    ensures Decode(signed, Encoding(c) + rest) == Char(c, |Encoding(c)|)
  {
    var e := Encoding(c);
    EncodingIsAccepted(c);
    DecodesWellFormed(signed, e);
    OneEncoding(c, Decode(signed, e).c);
    DecodeOfPrefix(signed, e, rest);
  }

  lemma EncodingIsAccepted(c: nat)
    requires IsScalar(c)
    ensures Accepted(Encoding(c)) || (Refused(c) && LetThrough(Encoding(c)))
  {
    if 0x7FF < c <= 0xFFFF {
      ThreeAreAccepted(c);
    } else if 0xFFFF < c {
      FourAreAccepted(c);
    }
  }

  lemma ThreeAreAccepted(c: nat)
    requires IsScalar(c) && 0x7FF < c <= 0xFFFF
    ensures Accepted(Encoding(c)) || (Refused(c) && LetThrough(Encoding(c)))
  {
    var a, b, d := c / 4096, c / 64 % 64, c % 64;
    Reassembled(c);
    ThreeParts(a, b, d);
    var e := Encoding(c);
    assert e[0] == a + 0xE0 && e[1] == b + 0x80 && e[2] == d + 0x80;
    hide Encoding;
    assert a > 0 || b >= 32;
    assert !(a == 13 && b >= 32);
    assert a == 15 && b == 63 && d >= 62 ==> Refused(c);
  }

  lemma FourAreAccepted(c: nat)
    requires 0xFFFF < c < 0x110000
    ensures Accepted(Encoding(c))
  {
    var a, b, d, f := c / 262144, c / 4096 % 64, c / 64 % 64, c % 64;
    Reassembled(c);
    FourParts(a, b, d, f);
    var e := Encoding(c);
    assert e[0] == a + 0xF0 && e[1] == b + 0x80 && e[2] == d + 0x80 && e[3] == f + 0x80;
    hide Encoding;
    assert (a > 0 || b >= 16) && (a < 4 || (a == 4 && b < 16));
  }

  lemma Reassembled(c: nat)
    ensures c == c / 64 * 64 + c % 64 && c == (c / 4096 * 64 + c / 64 % 64) * 64 + c % 64
    ensures c == ((c / 262144 * 64 + c / 4096 % 64) * 64 + c / 64 % 64) * 64 + c % 64
  {
    assert c / 4096 == c / 64 / 64 && c / 262144 == c / 4096 / 64;
  }

  lemma ValueOfEncoding(c: nat)
    requires c < 0x110000
    ensures Value(Encoding(c)) == c
  {
    Reassembled(c);
    if 0x7F < c <= 0x7FF { assert c / 64 % 32 == c / 64; }
    if 0x7FF < c <= 0xFFFF { assert c / 4096 % 16 == c / 4096; }
    if 0xFFFF < c { assert c / 262144 % 8 == c / 262144; }
  }

  lemma OneEncoding(c: nat, d: nat)
    requires c < 0x110000 && d < 0x110000 && Encoding(c) == Encoding(d)
    ensures c == d
  {
    ValueOfEncoding(c);
    ValueOfEncoding(d);
  }

  /** A character decodes from its own bytes alone. */
  lemma DecodeOfPrefix(signed: bool, s: seq<Byte>, rest: seq<Byte>)
    requires s != [] && Decode(signed, s).Char?
    ensures Decode(signed, s + rest) == Decode(signed, s) &&
            Decode(signed, s[..Decode(signed, s).n]) == Decode(signed, s)
  {
    var n := Decode(signed, s).n;
    if s[0] > 0x7F {
      assert (s + rest)[1..n] == s[1..n] && s[..n][1..n] == s[1..n];
      assert forall i | 0 <= i < n :: (s + rest)[i] == s[i] && s[..n][i] == s[i];
    }
  }
}

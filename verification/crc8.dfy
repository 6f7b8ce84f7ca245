/** The CRC-8 of the rollback records: the polynomial x^8 + x^2 + x + 1. The loop works on an
    unsigned word, of which it only ever uses bits 8 to 15; the facts are about that byte. */
module Crc {

  /** Addition of bit strings, which is exclusive or. */
  function Plus(a: bv8, b: bv8): bv8 {
    a ^ b
  }

  function Twice(b: bv8): bv8 {
    b << 1
  }

  /** The bit that doubling pushes out. */
  function Carry(b: bv8): bv8 {
    if b & 0x80 != 0 then 1 else 0
  }

  /** One step: the pushed-out bit comes back as the low terms of the polynomial. */
  function Step(c: bv8): bv8 {
    if c & 0x80 != 0 then (c << 1) ^ 0x07 else c << 1
  }

  function Steps(c: bv8, n: nat): bv8 {
    if n == 0 then c else Step(Steps(c, n - 1))
  }

  function Checksum(data: seq<bv8>): bv8 {
    if data == [] then 0 else Steps(Plus(Checksum(data[..|data| - 1]), data[|data| - 1]), 8)
  }

  // ---------- the loop ----------

  /** The word that holds a byte in bits 8 to 15. */
  function Lifted(b: bv8): bv32 {
    (b as bv32) << 8
  }

  lemma LiftedBack(b: bv8)
    ensures ((Lifted(b) >> 8) & 0xFF) as bv8 == b && Lifted(b) <= 0xFF00
  {
  }

  lemma LiftedPlus(a: bv8, b: bv8)
    ensures Lifted(a) ^ Lifted(b) == Lifted(Plus(a, b))
  {
  }

  /** The constant of the inner loop is the polynomial, moved up by 3 bits. */
  const STEP: bv32 := 0x8380

  method Crc8(data: seq<bv8>) returns (r: bv8)
    ensures r == Checksum(data)
  {
    var crc: bv32 := 0;
    assert crc == Lifted(0);
    hide Lifted, Plus, Step, Steps;
    var j := 0;
    while j < |data|
      invariant 0 <= j <= |data| && crc == Lifted(Checksum(data[..j]))
    {
      crc := FeedByte(crc, data[j], Checksum(data[..j]));
      assert data[..j + 1][..j] == data[..j];
      j := j + 1;
    }
    assert data[..j] == data;
    r := TopByte(crc, Checksum(data));
  }

  method TopByte(crc: bv32, ghost c: bv8) returns (r: bv8)
    requires crc == Lifted(c)
    ensures r == c
  {
    LiftedBack(c);
    r := ((crc >> 8) & 0xFF) as bv8;
  }

  /** One byte goes through the register bit by bit. */
  method FeedByte(crc: bv32, b: bv8, ghost c: bv8) returns (r: bv32)
    requires crc == Lifted(c)
    ensures r == Lifted(Steps(Plus(c, b), 8))
  {
    hide Plus, Step;
    r := AddByte(crc, b, c);
    var i := 8;
    while i > 0
      invariant 0 <= i <= 8 && r == Lifted(Steps(Plus(c, b), 8 - i))
    {
      r := FeedBit(r, Steps(Plus(c, b), 8 - i));
      i := i - 1;
    }
  }

  method AddByte(crc: bv32, b: bv8, ghost c: bv8) returns (r: bv32)
    requires crc == Lifted(c)
    ensures r == Lifted(Plus(c, b))
  {
    LiftedPlus(c, b);
    r := crc ^ Lifted(b);
  }

  method FeedBit(crc: bv32, ghost c: bv8) returns (r: bv32)
    requires crc == Lifted(c)
    ensures r == Lifted(Step(c)) && r <= 0xFFFF
  {
    if crc & 0x8000 != 0 {
      r := (crc ^ STEP) << 1;
    } else {
      r := crc << 1;
    }
  }

  // ---------- facts about single bytes ----------

  lemma PlusZero(a: bv8)
    ensures Plus(a, 0) == a && Plus(0, a) == a
  {
  }

  lemma PlusLaws(a: bv8, b: bv8, c: bv8)
    ensures Plus(a, b) == Plus(b, a) && Plus(Plus(a, b), c) == Plus(a, Plus(b, c))
  {
  }

  lemma PlusIsEqual(a: bv8, e: bv8)
    ensures Plus(a, e) == a <==> e == 0
  {
  }

  /** The low terms of the polynomial, or nothing. */
  function LowTerms(carry: bv8): bv8 {
    if carry == 1 then 0x07 else 0
  }

  lemma MoveSecond(b: bv8)
    ensures Step(b) == Plus(Twice(b), LowTerms(Carry(b))) && (Carry(b) == 1 || Carry(b) == 0)
  {
  }

  lemma Regroup(a: bv8, b: bv8, c: bv8, d: bv8)
    ensures Plus(Plus(a, b), Plus(c, d)) == Plus(Plus(a, c), Plus(b, d))
  {
    hide Plus;
    PlusLaws(a, b, Plus(c, d));
    PlusLaws(b, c, d);
    PlusLaws(c, b, d);
    PlusLaws(a, c, Plus(b, d));
  }

  lemma TwiceIsLinear(a: bv8, b: bv8)
    ensures Twice(Plus(a, b)) == Plus(Twice(a), Twice(b))
  {
  }

  lemma CarryIsLinear(a: bv8, b: bv8)
    ensures LowTerms(Carry(Plus(a, b))) == Plus(LowTerms(Carry(a)), LowTerms(Carry(b)))
  {
  }

  lemma StepIsLinear(a: bv8, b: bv8)
    ensures Step(Plus(a, b)) == Plus(Step(a), Step(b))
  {
    hide Step, Plus, Twice, Carry, LowTerms;
    MoveSecond(a);
    MoveSecond(b);
    MoveSecond(Plus(a, b));
    TwiceIsLinear(a, b);
    CarryIsLinear(a, b);
    Regroup(Twice(a), Twice(b), LowTerms(Carry(a)), LowTerms(Carry(b)));
  }

  lemma StepLosesNothing(c: bv8)
    ensures Step(c) == 0 <==> c == 0
  {
  }

  // ---------- linearity ----------

  lemma {:induction false} StepsAreLinear(a: bv8, b: bv8, n: nat)
    ensures Steps(Plus(a, b), n) == Plus(Steps(a, n), Steps(b, n))
  {
    hide Step, Plus;
    if n > 0 {
      StepsAreLinear(a, b, n - 1);
      StepIsLinear(Steps(a, n - 1), Steps(b, n - 1));
    }
  }

  lemma {:induction false} StepsLoseNothing(c: bv8, n: nat)
    ensures Steps(c, n) == 0 <==> c == 0
  {
    hide Step;
    if n > 0 {
      StepsLoseNothing(c, n - 1);
      StepLosesNothing(Steps(c, n - 1));
    }
  }

  function Xor(s: seq<bv8>, t: seq<bv8>): (r: seq<bv8>)
    requires |s| == |t|
    ensures |r| == |s| && forall i | 0 <= i < |s| :: r[i] == Plus(s[i], t[i])
  {
    seq(|s|, i requires 0 <= i < |s| => Plus(s[i], t[i]))
  }

  /** The checksum of a difference is the difference of the checksums. */
  lemma {:induction false} ChecksumIsLinear(s: seq<bv8>, t: seq<bv8>)
    requires |s| == |t|
    ensures Checksum(Xor(s, t)) == Plus(Checksum(s), Checksum(t))
  {
    hide Step, Plus, Steps;
    PlusZero(0);
    if s != [] {
      var n := |s| - 1;
      var a, b := Checksum(s[..n]), Checksum(t[..n]);
      assert Xor(s, t)[..n] == Xor(s[..n], t[..n]);
      ChecksumIsLinear(s[..n], t[..n]);
      Regroup(a, b, s[n], t[n]);
      StepsAreLinear(Plus(a, s[n]), Plus(b, t[n]), 8);
    }
  }

  /** An error goes unnoticed exactly if its own checksum is zero. */
  lemma Unnoticed(s: seq<bv8>, error: seq<bv8>)
    requires |s| == |error|
    ensures Checksum(Xor(s, error)) == Checksum(s) <==> Checksum(error) == 0
  {
    hide Checksum, Plus;
    ChecksumIsLinear(s, error);
    PlusIsEqual(Checksum(s), Checksum(error));
  }

  // ---------- parity ----------

  function Fold4(x: bv8): bv8 {
    x ^ (x >> 4)
  }

  function Fold2(x: bv8): bv8 {
    x ^ (x >> 2)
  }

  function Fold1(x: bv8): bv8 {
    (x ^ (x >> 1)) & 1
  }

  /** The parity of the bits of a byte, in the lowest bit. */
  function Parity(x: bv8): bv8 {
    Fold1(Fold2(Fold4(x)))
  }

  lemma Fold4IsLinear(x: bv8, y: bv8)
    ensures Fold4(Plus(x, y)) == Plus(Fold4(x), Fold4(y))
  {
  }

  lemma Fold2IsLinear(x: bv8, y: bv8)
    ensures Fold2(Plus(x, y)) == Plus(Fold2(x), Fold2(y))
  {
  }

  lemma Fold1IsLinear(x: bv8, y: bv8)
    ensures Fold1(Plus(x, y)) == Plus(Fold1(x), Fold1(y))
  {
  }

  lemma ParityIsLinear(x: bv8, y: bv8)
    ensures Parity(Plus(x, y)) == Plus(Parity(x), Parity(y))
  {
    hide Fold4, Fold2, Fold1, Plus;
    Fold4IsLinear(x, y);
    Fold2IsLinear(Fold4(x), Fold4(y));
    Fold1IsLinear(Fold2(Fold4(x)), Fold2(Fold4(y)));
  }

  lemma StepKeepsParity(c: bv8)
    ensures Parity(Step(c)) == Parity(c)
  {
  }

  lemma {:induction false} StepsKeepParity(c: bv8, n: nat)
    ensures Parity(Steps(c, n)) == Parity(c)
  {
    hide Parity, Step;
    if n > 0 {
      StepsKeepParity(c, n - 1);
      StepKeepsParity(Steps(c, n - 1));
    }
  }

  /** The parity of all the bits of a message. */
  function BitParity(data: seq<bv8>): bv8 {
    if data == [] then 0 else Plus(BitParity(data[..|data| - 1]), Parity(data[|data| - 1]))
  }

  function Bit(x: bv8, mask: bv8): nat {
    if x & mask == 0 then 0 else 1
  }

  /** How many bits of a byte are set. */
  function Ones(x: bv8): nat {
    Bit(x, 0x01) + Bit(x, 0x02) + Bit(x, 0x04) + Bit(x, 0x08) + Bit(x, 0x10) + Bit(x, 0x20) + Bit(x, 0x40) +
    Bit(x, 0x80)
  }

  /** The number of set bits of a message. */
  function TotalOnes(data: seq<bv8>): nat {
    if data == [] then 0 else TotalOnes(data[..|data| - 1]) + Ones(data[|data| - 1])
  }

  /** Folding counts the set bits modulo 2. */
  lemma ParityCounts(x: bv8)
    ensures Parity(x) == if Ones(x) % 2 == 1 then 1 else 0
  {
  }

  lemma PlusOfBits(p: bv8, q: bv8)
    requires (p == 0 || p == 1) && (q == 0 || q == 1)
    ensures Plus(p, q) == if p == q then 0 else 1
  {
  }

  lemma ParityOfZero()
    ensures Parity(0) == 0
  {
  }

  /** The parity of a message is the number of its set bits modulo 2. */
  lemma {:induction false} BitParityCounts(data: seq<bv8>)
    ensures BitParity(data) == if TotalOnes(data) % 2 == 1 then 1 else 0
  {
    hide Parity, Plus, Ones;
    if data != [] {
      var front, b := data[..|data| - 1], data[|data| - 1];
      BitParityCounts(front);
      ParityCounts(b);
      PlusOfBits(BitParity(front), Parity(b));
    }
  }

  /** The checksum has the parity of the message. */
  lemma {:induction false} ParityIsKept(data: seq<bv8>)
    ensures Parity(Checksum(data)) == BitParity(data)
  {
    hide Parity, Step, Plus, Steps;
    ParityOfZero();
    if data != [] {
      var front, b := data[..|data| - 1], data[|data| - 1];
      ParityIsKept(front);
      StepsKeepParity(Plus(Checksum(front), b), 8);
      ParityIsLinear(Checksum(front), b);
    }
  }

  /** Any odd number of flipped bits is noticed, in a message of any length. */
  lemma OddErrorsAreNoticed(s: seq<bv8>, error: seq<bv8>)
    requires |s| == |error| && TotalOnes(error) % 2 == 1
    ensures Checksum(Xor(s, error)) != Checksum(s)
  {
    hide Parity, Checksum, BitParity;
    Unnoticed(s, error);
    BitParityCounts(error);
    ParityIsKept(error);
    ParityOfZero();
  }

  // ---------- bursts ----------

  function Zeros(n: nat): (z: seq<bv8>)
    ensures |z| == n
  {
    if n == 0 then [] else Zeros(n - 1) + [0]
  }

  lemma ChecksumStep(s: seq<bv8>, b: bv8)
    ensures Checksum(s + [b]) == Steps(Plus(Checksum(s), b), 8)
  {
    hide Step, Plus, Steps;
    assert (s + [b])[..|s|] == s;
  }

  lemma {:induction false} LeadingZeros(n: nat)
    ensures Checksum(Zeros(n)) == 0
  {
    hide Step, Plus, Steps;
    if n > 0 {
      LeadingZeros(n - 1);
      ChecksumStep(Zeros(n - 1), 0);
      PlusZero(0);
      StepsLoseNothing(0, 8);
    }
  }

  /** An error that has left a trace keeps it through any number of good bytes. */
  lemma {:induction false} TrailingZeros(s: seq<bv8>, n: nat)
    requires Checksum(s) != 0
    ensures Checksum(s + Zeros(n)) != 0
  {
    hide Step, Plus, Steps;
    if n == 0 {
      assert s + Zeros(0) == s;
    } else {
      var t := s + Zeros(n - 1);
      TrailingZeros(s, n - 1);
      ChecksumStep(t, 0);
      assert s + Zeros(n) == t + [0];
      PlusZero(Checksum(t));
      StepsLoseNothing(Checksum(t), 8);
    }
  }

  /** A pattern of 8 bits, moved `k` bits to the left in two bytes: the first byte. */
  function First(p: bv8, k: nat): bv8
    requires k <= 8
  {
    if k == 0 then 0 else if k == 1 then p >> 7 else if k == 2 then p >> 6 else if k == 3 then p >> 5
    else if k == 4 then p >> 4 else if k == 5 then p >> 3 else if k == 6 then p >> 2 else if k == 7 then p >> 1 else p
  }

  /** And the second byte. */
  function Second(p: bv8, k: nat): bv8
    requires k <= 8
  {
    if k == 0 then p else if k == 1 then p << 1 else if k == 2 then p << 2 else if k == 3 then p << 3
    else if k == 4 then p << 4 else if k == 5 then p << 5 else if k == 6 then p << 6 else if k == 7 then p << 7 else 0
  }

  /** Moving the pattern one bit further. */
  lemma MoveOne(p: bv8, k: nat)
    requires k < 8
    ensures First(p, k) & 0x80 == 0
    ensures First(p, k + 1) == Plus(Twice(First(p, k)), Carry(Second(p, k))) && Second(p, k + 1) == Twice(Second(p, k))
  {
    hide First, Second, Plus, Twice, Carry;
    if k < 4 { MoveOneLow(p, k); } else { MoveOneHigh(p, k); }
  }

  lemma MoveOneLow(p: bv8, k: nat)
    requires k < 4
    ensures First(p, k) & 0x80 == 0
    ensures First(p, k + 1) == Plus(Twice(First(p, k)), Carry(Second(p, k))) && Second(p, k + 1) == Twice(Second(p, k))
  {
  }

  lemma MoveOneHigh(p: bv8, k: nat)
    requires 4 <= k < 8
    ensures First(p, k) & 0x80 == 0
    ensures First(p, k + 1) == Plus(Twice(First(p, k)), Carry(Second(p, k))) && Second(p, k + 1) == Twice(Second(p, k))
  {
  }

  lemma MoveFirst(a: bv8)
    requires a & 0x80 == 0
    ensures Step(a) == Twice(a)
  {
  }

  lemma SingleSteps()
    ensures Step(0x01) == 0x02 && Step(0x02) == 0x04 && Step(0x04) == 0x08 && Step(0x08) == 0x10
    ensures Step(0x10) == 0x20 && Step(0x20) == 0x40 && Step(0x40) == 0x80 && Step(0x80) == 0x07
  {
  }

  /** One byte further, a carried bit has become the low terms of the polynomial. */
  lemma EightSteps()
    ensures Steps(1, 8) == 0x07
  {
    SingleSteps();
    hide Step;
    var c: bv8 := 1;
    assert Steps(c, 2) == Step(Steps(c, 1)) && Steps(c, 1) == Step(Steps(c, 0));
    assert Steps(c, 4) == Step(Steps(c, 3)) && Steps(c, 3) == Step(Steps(c, 2));
    assert Steps(c, 6) == Step(Steps(c, 5)) && Steps(c, 5) == Step(Steps(c, 4));
    assert Steps(c, 8) == Step(Steps(c, 7)) && Steps(c, 7) == Step(Steps(c, 6));
  }

  lemma CarriedOver(b: bv8)
    ensures Steps(Carry(b), 8) == LowTerms(Carry(b))
  {
    MoveSecond(b);
    StepsLoseNothing(0, 8);
    EightSteps();
    hide Step, Carry;
  }

  lemma {:induction false} StepFirst(c: bv8, n: nat)
    ensures Steps(Step(c), n) == Step(Steps(c, n))
  {
    hide Step;
    if n > 0 { StepFirst(c, n - 1); }
  }

  /** The register just before it takes its last 8 steps over the two bytes of a burst: the
      pattern itself, stepped. */
  lemma {:induction false} BurstValue(p: bv8, k: nat)
    requires k <= 8
    ensures Plus(Steps(First(p, k), 8), Second(p, k)) == Steps(p, k)
  {
    hide Step, Plus, Carry, Twice;
    if k == 0 {
      StepsLoseNothing(0, 8);
      PlusZero(p);
    } else {
      var a, b := First(p, k - 1), Second(p, k - 1);
      BurstValue(p, k - 1);
      MoveOne(p, k - 1);
      MoveFirst(a);
      MoveSecond(b);
      CarriedOver(b);
      BurstStep(a, b);
    }
  }

  lemma BurstStep(a: bv8, b: bv8)
    requires Step(a) == Twice(a) && Step(b) == Plus(Twice(b), Steps(Carry(b), 8))
    ensures Plus(Steps(Plus(Twice(a), Carry(b)), 8), Twice(b)) == Step(Plus(Steps(a, 8), b))
  {
    hide Step, Plus, Carry, Twice, Steps;
    var x, y, z := Steps(Twice(a), 8), Steps(Carry(b), 8), Twice(b);
    StepsAreLinear(Twice(a), Carry(b), 8);
    StepFirst(a, 8);
    StepIsLinear(Steps(a, 8), b);
    PlusLaws(x, y, z);
    PlusLaws(z, y, x);
  }

  /** A burst in one byte leaves a trace. */
  lemma ByteLeavesTrace(a: nat, p: bv8)
    requires p != 0
    ensures Checksum(Zeros(a) + [p]) != 0
  {
    hide Step, Plus, Steps;
    LeadingZeros(a);
    ChecksumStep(Zeros(a), p);
    PlusZero(p);
    StepsLoseNothing(p, 8);
  }

  /** A burst over two bytes leaves a trace. */
  lemma BurstLeavesTrace(a: nat, p: bv8, k: nat)
    requires p != 0 && k <= 8
    ensures Checksum(Zeros(a) + [First(p, k), Second(p, k)]) != 0
  {
    hide Step, Plus, Steps, First, Second;
    var b, c := First(p, k), Second(p, k);
    LeadingZeros(a);
    ChecksumStep(Zeros(a), b);
    PlusZero(b);
    ChecksumStep(Zeros(a) + [b], c);
    assert Zeros(a) + [b, c] == Zeros(a) + [b] + [c];
    BurstValue(p, k);
    StepsLoseNothing(p, k);
    StepsLoseNothing(Steps(p, k), 8);
  }

  /** Any burst of at most 8 bits is noticed, in a message of any length: whether it lies in one
      byte or over two. */
  lemma BurstsAreNoticed(s: seq<bv8>, error: seq<bv8>, a: nat, b: nat, p: bv8, k: nat)
    requires p != 0 && k <= 8 && |error| == |s|
    requires error == Zeros(a) + [p] + Zeros(b) || error == Zeros(a) + [First(p, k), Second(p, k)] + Zeros(b)
    ensures Checksum(Xor(s, error)) != Checksum(s)
  {
    hide Checksum, First, Second, Zeros;
    Unnoticed(s, error);
    ByteLeavesTrace(a, p);
    BurstLeavesTrace(a, p, k);
    TrailingZeros(Zeros(a) + [p], b);
    TrailingZeros(Zeros(a) + [First(p, k), Second(p, k)], b);
  }
}

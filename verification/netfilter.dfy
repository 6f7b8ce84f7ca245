/** The part of iptables that the generated rules rely on: packets with abstract test
    outcomes, a 32-bit connection mark, and linear chains whose rules either overwrite bits
    of the mark or leave the chain for a target.

    Rule text is not modelled: a rule is its list of matches and its action. */
module Netfilter {

  datatype Proto = Tcp | Udp | OtherProto

  /** What a test looks at.  Every kind but the connection mark is decided by the packet alone. */
  datatype Kind =
    | UrlContains | UrlRegex | UrlExact | UrlDomainContains | UrlDomainRegex | UrlDomainExact
    | FwMark
    | SrcIp | SrcRange | SrcMac | DstIp | DstRange
    | SrcPort | DstPort
    | TimeRange | Layer7 | Ipp2p | PktLength

  datatype Test =
    | Opaque(kind: Kind, arg: string)
    | Connmark(value: Word, mask: Word)
    | All(checks: seq<Match>)

  datatype Match =
    | ProtoIs(proto: Proto)
    | Check(test: Test, negated: bool)

  datatype Action =
    | SetMark(value: Word, mask: Word)
    | Jump(target: string, options: string)

  datatype Rule = Rule(matches: seq<Match>, action: Action)

  /** `outcome` says which abstract tests the packet passes. */
  datatype Packet = Packet(proto: Proto, outcome: (Kind, string) -> bool)

  datatype Verdict = Through(mark: Word) | Taken(target: string, options: string, mark: Word)

  /** A 32-bit mark word: the top byte, which the rules use as scratch space, and the rest. */
  datatype Word = Word(top: bv8, low: bv24)

  const ZERO := Word(0, 0)
  const SCRATCH := Word(0xFF, 0)

  function And(a: Word, b: Word): Word {
    Word(a.top & b.top, a.low & b.low)
  }

  predicate IsUrlKind(k: Kind) {
    k.UrlContains? || k.UrlRegex? || k.UrlExact? ||
    k.UrlDomainContains? || k.UrlDomainRegex? || k.UrlDomainExact?
  }

  /** A packet is an HTTP request when the weburl match finds "http" in its URL. */
  predicate IsHttp(pkt: Packet) {
    pkt.outcome(UrlContains, "http")
  }

  predicate TestHolds(t: Test, pkt: Packet, mark: Word)
    decreases t
  {
    match t
    case Opaque(k, a) => pkt.outcome(k, a)
    case Connmark(v, m) => And(mark, m) == v
    case All(checks) => forall c | c in checks :: Holds(c, pkt, mark)
  }

  /** A negated weburl match still needs an HTTP request to look at. */
  predicate Holds(m: Match, pkt: Packet, mark: Word)
    decreases m
  {
    match m
    case ProtoIs(p) => pkt.proto == p
    case Check(t, negated) =>
      if negated then
        !TestHolds(t, pkt, mark) && (t.Opaque? && IsUrlKind(t.kind) ==> IsHttp(pkt))
      else
        TestHolds(t, pkt, mark)
  }

  predicate AllHold(ms: seq<Match>, pkt: Packet, mark: Word) {
    forall m | m in ms :: Holds(m, pkt, mark)
  }

  function Merge(a: bv8, value: bv8, mask: bv8): bv8 {
    (a & !mask) | value
  }

  function MergeLow(a: bv24, value: bv24, mask: bv24): bv24 {
    (a & !mask) | value
  }

  /** CONNMARK --set-mark value/mask: clear the mask's bits, then set the value's. */
  function ApplyMark(mark: Word, value: Word, mask: Word): Word {
    Word(Merge(mark.top, value.top, mask.top), MergeLow(mark.low, value.low, mask.low))
  }

  function Run(rules: seq<Rule>, pkt: Packet, mark: Word): Verdict {
    if rules == [] then Through(mark)
    else if !AllHold(rules[0].matches, pkt, mark) then Run(rules[1..], pkt, mark)
    else match rules[0].action
      case SetMark(v, m) => Run(rules[1..], pkt, ApplyMark(mark, v, m))
      case Jump(target, options) => Taken(target, options, mark)
  }

  lemma {:induction false} RunAppend(a: seq<Rule>, b: seq<Rule>, pkt: Packet, mark: Word)
    ensures Run(a + b, pkt, mark) ==
            match Run(a, pkt, mark)
            case Through(m) => Run(b, pkt, m)
            case Taken(t, o, m) => Taken(t, o, m)
  {
    if a == [] {
      assert a + b == b;
    } else {
      assert (a + b)[1..] == a[1..] + b;
      if AllHold(a[0].matches, pkt, mark) {
        if a[0].action.SetMark? {
          RunAppend(a[1..], b, pkt, ApplyMark(mark, a[0].action.value, a[0].action.mask));
        }
      } else {
        RunAppend(a[1..], b, pkt, mark);
      }
    }
  }

  // ---------- tests that ignore the scratch byte ----------

  /** The test never looks at the top byte of the connection mark. */
  ghost predicate LowTest(t: Test)
    decreases t
  {
    match t
    case Opaque(_, _) => true
    case Connmark(_, m) => m.top == 0
    case All(checks) => forall c | c in checks :: LowMatch(c)
  }

  ghost predicate LowMatch(m: Match)
    decreases m
  {
    m.Check? ==> LowTest(m.test)
  }

  lemma {:induction false} LowTestHolds(t: Test, pkt: Packet, a: Word, b: Word)
    requires LowTest(t) && a.low == b.low
    ensures TestHolds(t, pkt, a) == TestHolds(t, pkt, b)
    decreases t
  {
    match t
    case Opaque(_, _) =>
    case Connmark(_, m) => MaskedTop(a.top, b.top, m.top);
    case All(checks) =>
      forall c | c in checks ensures Holds(c, pkt, a) == Holds(c, pkt, b) {
        LowMatchHolds(c, pkt, a, b);
      }
  }

  lemma {:induction false} LowMatchHolds(m: Match, pkt: Packet, a: Word, b: Word)
    requires LowMatch(m) && a.low == b.low
    ensures Holds(m, pkt, a) == Holds(m, pkt, b)
    decreases m
  {
    if m.Check? {
      LowTestHolds(m.test, pkt, a, b);
    }
  }

  lemma MaskedTop(a: bv8, b: bv8, m: bv8)
    requires m == 0
    ensures a & m == b & m
  {
  }

  // ---------- the scratch byte as eight flags ----------

  function FlagByte(i: nat): bv8
    requires i < 8
  {
    if i == 0 then 0x01 else if i == 1 then 0x02 else if i == 2 then 0x04 else if i == 3 then 0x08
    else if i == 4 then 0x10 else if i == 5 then 0x20 else if i == 6 then 0x40 else 0x80
  }

  /** 0x01000000 * 2^i */
  function ScratchBit(i: nat): Word
    requires i < 8
  {
    Word(FlagByte(i), 0)
  }

  predicate HasBits(a: bv8, f: bv8) {
    a & f != 0
  }

  predicate Flag(mark: Word, i: nat)
    requires i < 8
  {
    HasBits(mark.top, FlagByte(i))
  }

  lemma FlagSet(mark: Word, i: nat, on: bool, j: nat)
    requires i < 8 && j < 8
    ensures var m := ApplyMark(mark, if on then ScratchBit(i) else ZERO, ScratchBit(i));
            Flag(m, j) == (if i == j then on else Flag(mark, j)) && m.low == mark.low
  {
    KeepLow(mark.low);
    FlagsApart(i, j);
    OneFlag(mark.top, FlagByte(i), FlagByte(j), on, i == j);
  }

  lemma OneFlag(a: bv8, f: bv8, g: bv8, on: bool, same: bool)
    requires f != 0 && (if same then f == g else f & g == 0)
    ensures HasBits(Merge(a, if on then f else 0, f), g) == if same then on else HasBits(a, g)
  {
    if same { SameFlag(a, f); } else { OtherFlag(a, f, g); }
  }

  lemma FlagsApart(i: nat, j: nat)
    requires i < 8 && j < 8
    ensures i != j ==> FlagByte(i) & FlagByte(j) == 0
    ensures FlagByte(i) != 0
  {
  }

  lemma SameFlag(a: bv8, f: bv8)
    ensures ((a & !f) | f) & f == f && ((a & !f) | 0) & f == 0
  {
  }

  lemma OtherFlag(a: bv8, f: bv8, g: bv8)
    requires f & g == 0
    ensures ((a & !f) | f) & g == a & g && ((a & !f) | 0) & g == a & g
  {
  }

  lemma KeepLow(low: bv24)
    ensures MergeLow(low, 0, 0) == low
  {
  }

  /** Overwriting the whole scratch byte. */
  lemma SetAll(mark: Word, top: bv8)
    ensures ApplyMark(mark, Word(top, 0), SCRATCH) == Word(top, mark.low)
  {
    KeepLow(mark.low);
    WholeByte(mark.top, top);
  }

  lemma WholeByte(a: bv8, top: bv8)
    ensures Merge(a, top, 0xFF) == top
  {
  }

  /** Equality of scratch bytes is equality of the eight flags. */
  lemma FlagsDecide(mark: Word, want: Word)
    ensures mark.top == want.top <==> forall j: nat | j < 8 :: Flag(mark, j) == Flag(want, j)
  {
    if mark.top != want.top {
      var j := FlagApart(mark, want);
    }
  }

  lemma FlagApart(mark: Word, want: Word) returns (j: nat)
    requires mark.top != want.top
    ensures j < 8 && Flag(mark, j) != Flag(want, j)
  {
    var a, w := mark.top, want.top;
    j := if HasBits(a, 0x01) != HasBits(w, 0x01) then 0 else if HasBits(a, 0x02) != HasBits(w, 0x02) then 1
    else if HasBits(a, 0x04) != HasBits(w, 0x04) then 2 else if HasBits(a, 0x08) != HasBits(w, 0x08) then 3
    else if HasBits(a, 0x10) != HasBits(w, 0x10) then 4 else if HasBits(a, 0x20) != HasBits(w, 0x20) then 5
    else if HasBits(a, 0x40) != HasBits(w, 0x40) then 6 else 7;
    if HasBits(a, FlagByte(j)) == HasBits(w, FlagByte(j)) {
      EightFlags(a, w);
    }
  }

  lemma EightFlags(a: bv8, w: bv8)
    requires HasBits(a, 0x01) == HasBits(w, 0x01) && HasBits(a, 0x02) == HasBits(w, 0x02)
    requires HasBits(a, 0x04) == HasBits(w, 0x04) && HasBits(a, 0x08) == HasBits(w, 0x08)
    requires HasBits(a, 0x10) == HasBits(w, 0x10) && HasBits(a, 0x20) == HasBits(w, 0x20)
    requires HasBits(a, 0x40) == HasBits(w, 0x40) && HasBits(a, 0x80) == HasBits(w, 0x80)
    ensures a == w
  {
  }

  function AddBit(sum: Word, bit: Word): Word {
    Word(sum.top + bit.top, 0)
  }

  /** Adding a flag that is off is switching it on. */
  lemma FlagAdd(sum: Word, i: nat, j: nat)
    requires i < 8 && j < 8 && !Flag(sum, i)
    ensures Flag(AddBit(sum, ScratchBit(i)), j) == (i == j || Flag(sum, j))
    ensures AddBit(sum, ZERO) == Word(sum.top, 0)
  {
  }
}

/** What a compiled chain does to a packet, against what the definition asks for. */
module RuleMeaning {
  import opened Wrappers
  import opened Netfilter
  import opened RuleCompiler

  // ---------- the definition read as a condition ----------

  ghost predicate SomeHolds(ts: seq<Test>, pkt: Packet, mark: Word) {
    exists t | t in ts :: TestHolds(t, pkt, mark)
  }

  /** A positive list hides its negation; an absent category holds. */
  ghost predicate ListHolds(pos: Option<seq<Test>>, neg: Option<seq<Test>>, pkt: Packet, mark: Word) {
    if pos.Some? then SomeHolds(pos.value, pkt, mark)
    else neg.Some? ==> !SomeHolds(neg.value, pkt, mark)
  }

  ghost predicate UrlHolds(def: RuleDef, pkt: Packet, mark: Word) {
    var pos, neg := Concat(UrlParts(def.urls)), Concat(UrlParts(def.notUrls));
    if pos != [] then SomeHolds(pos, pkt, mark)
    else neg != [] ==> IsHttp(pkt) && !SomeHolds(neg, pkt, mark)
  }

  ghost predicate AddrHolds(addrs: (Option<Addrs>, Option<Addrs>), dst: bool, pkt: Packet, mark: Word) {
    if addrs.0.Some? then SomeHolds(Concat(AddrParts(addrs.0.value, dst)), pkt, mark)
    else addrs.1.Some? ==> !SomeHolds(Concat(AddrParts(addrs.1.value, dst)), pkt, mark)
  }

  ghost predicate PortHolds(kind: Kind, ports: (Option<seq<string>>, Option<seq<string>>), pkt: Packet, mark: Word) {
    ListHolds(OptTests(kind, ports.0), OptTests(kind, ports.1), pkt, mark)
  }

  ghost predicate ConnmarkHolds(def: RuleDef, pkt: Packet, mark: Word) {
    ListHolds(OptMarks(def.connmark), OptMarks(def.notConnmark), pkt, mark)
  }

  ghost predicate Allowed(proto: ProtoChoice, strict: bool, p: Proto) {
    match proto
    case Both => strict ==> p.Tcp? || p.Udp?
    case JustTcp => p.Tcp?
    case JustUdp => p.Udp?
  }

  /** The protocol is one the definition is about: the one it names, TCP if it names URLs, one with
      ports if it names ports. */
  ghost predicate ProtoAgrees(def: RuleDef, p: Proto) {
    Allowed(RuleProto(def), HasPorts(def), p)
  }

  ghost predicate Intended(def: RuleDef, ingress: bool, pkt: Packet, mark: Word) {
    ProtoAgrees(def, pkt.proto) &&
    UrlHolds(def, pkt, mark) &&
    ListHolds(OptTests(FwMark, def.mark), OptTests(FwMark, def.notMark), pkt, mark) &&
    ConnmarkHolds(def, pkt, mark) &&
    AddrHolds(SrcAddrs(def, ingress), false, pkt, mark) &&
    AddrHolds(DstAddrs(def, ingress), true, pkt, mark) &&
    PortHolds(SrcPort, SrcPorts(def, ingress), pkt, mark) &&
    PortHolds(DstPort, DstPorts(def, ingress), pkt, mark) &&
    AllHold(BaseChecks(def), pkt, mark)
  }

  /** White-listing URLs also accepts the other packets sent to port 80. */
  ghost predicate TailAccepts(def: RuleDef, ingress: bool, target: string, pkt: Packet) {
    UrlCategory(def).tests != [] && target == "ACCEPT" && !ingress &&
    pkt.proto.Tcp? && !IsHttp(pkt) && pkt.outcome(DstPort, "80")
  }

  // ---------- running the flag rules ----------

  ghost predicate Hit(ts: seq<Test>, proto: ProtoChoice, strict: bool, pkt: Packet, mark: Word) {
    Allowed(proto, strict, pkt.proto) && SomeHolds(ts, pkt, mark)
  }

  ghost predicate LowTests(ts: seq<Test>) {
    forall t | t in ts :: LowTest(t)
  }

  lemma {:induction false} SomeHoldsLow(ts: seq<Test>, pkt: Packet, a: Word, b: Word)
    requires LowTests(ts) && a.low == b.low
    ensures SomeHolds(ts, pkt, a) == SomeHolds(ts, pkt, b)
  {
    forall t | t in ts ensures TestHolds(t, pkt, a) == TestHolds(t, pkt, b) {
      LowTestHolds(t, pkt, a, b);
    }
  }

  /** The mark `m` is `mark` with flag `i` overwritten when `hit`. */
  ghost predicate Overwrites(m: Word, mark: Word, i: nat, hit: bool, on: bool) {
    m.low == mark.low &&
    forall j: nat | j < 8 :: Flag(m, j) == (if hit && i == j then on else Flag(mark, j))
  }

  lemma ApplyOverwrites(mark: Word, i: nat, negated: bool)
    requires i < 8
    ensures var a := FlagAction(i, negated); Overwrites(ApplyMark(mark, a.value, a.mask), mark, i, true, !negated)
  {
    forall j: nat | j < 8
      ensures var a := FlagAction(i, negated); var m := ApplyMark(mark, a.value, a.mask);
              Flag(m, j) == (if i == j then !negated else Flag(mark, j)) && m.low == mark.low
    {
      FlagSet(mark, i, !negated, j);
    }
    FlagSet(mark, i, !negated, 0);
  }

  lemma RunOne(r: Rule, pkt: Packet, mark: Word)
    ensures Run([r], pkt, mark) ==
            if !AllHold(r.matches, pkt, mark) then Through(mark) else
            match r.action
            case SetMark(v, m) => Through(ApplyMark(mark, v, m))
            case Jump(t, o) => Taken(t, o, mark)
  {
    assert [r][1..] == [];
  }

  lemma AllHoldAppend(a: seq<Match>, b: seq<Match>, pkt: Packet, mark: Word)
    ensures AllHold(a + b, pkt, mark) == (AllHold(a, pkt, mark) && AllHold(b, pkt, mark))
  {
    if AllHold(a + b, pkt, mark) {
      forall m | m in a ensures Holds(m, pkt, mark) { assert m in a + b; }
      forall m | m in b ensures Holds(m, pkt, mark) { assert m in a + b; }
    }
  }

  lemma AllHoldOne(m: Match, pkt: Packet, mark: Word)
    ensures AllHold([m], pkt, mark) == Holds(m, pkt, mark)
  {
    assert m in [m];
  }

  lemma AllHoldTwo(a: Match, b: Match, pkt: Packet, mark: Word)
    ensures AllHold([a, b], pkt, mark) == (Holds(a, pkt, mark) && Holds(b, pkt, mark))
  {
    assert [a, b] == [a] + [b];
    AllHoldAppend([a], [b], pkt, mark);
    AllHoldOne(a, pkt, mark);
    AllHoldOne(b, pkt, mark);
  }

  lemma RunTest(t: Test, i: nat, negated: bool, proto: ProtoChoice, strict: bool, pkt: Packet, mark: Word)
    requires i < 8
    ensures var v := Run(TestRules(t, i, negated, proto, strict), pkt, mark);
            v.Through? &&
            Overwrites(v.mark, mark, i, Allowed(proto, strict, pkt.proto) && TestHolds(t, pkt, mark), !negated)
  {
    var rules := TestRules(t, i, negated, proto, strict);
    var common := Check(t, false);
    ApplyOverwrites(mark, i, negated);
    RunOne(rules[0], pkt, mark);
    AllHoldOne(common, pkt, mark);
    AllHoldTwo(ProtoIs(Tcp), common, pkt, mark);
    AllHoldTwo(ProtoIs(Udp), common, pkt, mark);
    if proto == Both && strict {
      assert rules == [rules[0]] + [rules[1]];
      var m := Run([rules[0]], pkt, mark).mark;
      RunAppend([rules[0]], [rules[1]], pkt, mark);
      RunOne(rules[1], pkt, m);
      AllHoldTwo(ProtoIs(Udp), common, pkt, m);
    } else {
      assert rules == [rules[0]];
    }
  }

  lemma SameMark(m: Word, mark: Word, i: nat, on: bool)
    requires Overwrites(m, mark, i, false, on)
    ensures m == mark
  {
    FlagsDecide(m, mark);
  }

  /** The rules of one flag set it or clear it if one of the tests holds at the start: once it is
      overwritten, whatever later tests see of it cannot bring it back. */
  lemma {:induction false} RunList(ts: seq<Test>, i: nat, negated: bool, proto: ProtoChoice, strict: bool, pkt: Packet,
                                   mark: Word)
    requires i < 8
    ensures var v := Run(ListRules(ts, i, negated, proto, strict), pkt, mark);
            v.Through? && Overwrites(v.mark, mark, i, Hit(ts, proto, strict, pkt, mark), !negated)
  {
    if ts != [] {
      var front, last := ts[..|ts| - 1], ts[|ts| - 1];
      RunList(front, i, negated, proto, strict, pkt, mark);
      var m := Run(ListRules(front, i, negated, proto, strict), pkt, mark).mark;
      RunAppend(ListRules(front, i, negated, proto, strict), TestRules(last, i, negated, proto, strict), pkt, mark);
      RunTest(last, i, negated, proto, strict, pkt, m);
      assert ts == front + [last];
      assert SomeHolds(ts, pkt, mark) == (SomeHolds(front, pkt, mark) || TestHolds(last, pkt, mark));
      if !Hit(front, proto, strict, pkt, mark) { SameMark(m, mark, i, !negated); }
    }
  }

  /** The mark after the rules of the first `k` flags. */
  ghost function MarkAfter(cats: seq<Category>, k: nat, proto: ProtoChoice, pkt: Packet, mark: Word): Word
    requires k <= |cats| <= 8
  {
    FlagsThrough(cats[..k], proto, pkt, mark);
    Run(FlagRules(cats[..k], proto), pkt, mark).mark
  }

  lemma {:induction false} FlagsThrough(cats: seq<Category>, proto: ProtoChoice, pkt: Packet, mark: Word)
    requires |cats| <= 8
    ensures Run(FlagRules(cats, proto), pkt, mark).Through?
  {
    if cats != [] {
      var n := |cats| - 1;
      FlagsThrough(cats[..n], proto, pkt, mark);
      RunAppend(FlagRules(cats[..n], proto), CategoryRules(cats[n], n, proto), pkt, mark);
      var m := Run(FlagRules(cats[..n], proto), pkt, mark).mark;
      if cats[n].multi { RunList(cats[n].tests, n, cats[n].negated, proto, cats[n].strict, pkt, m); }
    }
  }

  /** The rules of flag `k` see the mark that the flags before have left. */
  lemma OneMoreFlag(cats: seq<Category>, k: nat, proto: ProtoChoice, pkt: Packet, mark: Word)
    requires k < |cats| <= 8
    ensures var c, m := cats[k], MarkAfter(cats, k, proto, pkt, mark);
            Overwrites(MarkAfter(cats, k + 1, proto, pkt, mark), m, k,
                       c.multi && Hit(c.tests, proto, c.strict, pkt, m), !c.negated)
  {
    var c, m := cats[k], MarkAfter(cats, k, proto, pkt, mark);
    assert cats[..k + 1][..k] == cats[..k];
    FlagsThrough(cats[..k], proto, pkt, mark);
    RunAppend(FlagRules(cats[..k], proto), CategoryRules(c, k, proto), pkt, mark);
    if c.multi { RunList(c.tests, k, c.negated, proto, c.strict, pkt, m); }
  }

  // ---------- presets and the final match ----------

  lemma {:induction false} FlagSumFlags(flags: seq<bool>)
    requires |flags| <= 8
    ensures FlagSum(flags).low == 0
    ensures forall j: nat | j < 8 :: Flag(FlagSum(flags), j) == (j < |flags| && flags[j])
  {
    if flags == [] {
      forall j: nat | j < 8 ensures !Flag(ZERO, j) { NoFlag(j); }
    } else {
      var n := |flags| - 1;
      FlagSumFlags(flags[..n]);
      var sum := FlagSum(flags[..n]);
      forall j: nat | j < 8 ensures Flag(FlagSum(flags), j) == (j < |flags| && flags[j]) {
        assert !Flag(sum, n);
        FlagAdd(sum, n, j);
        assert Flag(sum, j) == (j < n && flags[j]);
      }
    }
  }

  lemma NoFlag(j: nat)
    requires j < 8
    ensures !Flag(ZERO, j)
  {
  }

  lemma SameFlags(m: Word, top: bv8)
    requires m.top == top
    ensures forall j: nat | j < 8 :: Flag(m, j) == Flag(Word(top, 0), j)
  {
  }

  /** The flags a packet starts the flag rules with. */
  ghost predicate FlagPreset(cats: seq<Category>, pkt: Packet, j: nat)
    requires |cats| > 0
  {
    j < |cats| && cats[j].negated && cats[j].multi && (j == 0 ==> pkt.proto.Tcp? && IsHttp(pkt))
  }

  lemma RunPresets(cats: seq<Category>, pkt: Packet, mark: Word)
    requires 0 < |cats| <= 8 && mark.top == 0
    ensures var v := Run(PresetRules(cats), pkt, mark);
            v.Through? && v.mark.low == mark.low &&
            forall j: nat | j < 8 :: Flag(v.mark, j) == FlagPreset(cats, pkt, j)
  {
    var main := FlagSum(PresetFlags(cats));
    FlagSumFlags(PresetFlags(cats));
    var first := if main.top != 0 then [Rule([], SetMark(main, SCRATCH))] else [];
    var second := if cats[0].negated && cats[0].multi then
      [Rule([ProtoIs(Tcp), HTTP], SetMark(ScratchBit(0), ScratchBit(0)))] else [];
    RunAppend(first, second, pkt, mark);
    if first != [] { RunOne(first[0], pkt, mark); SetAll(mark, main.top); }
    var m := Run(first, pkt, mark).mark;
    assert m == Word(main.top, mark.low);
    SameFlags(m, main.top);
    if second != [] {
      RunOne(second[0], pkt, m);
      AllHoldTwo(ProtoIs(Tcp), HTTP, pkt, m);
      ApplyOverwrites(m, 0, false);
    }
  }

  ghost predicate FinalProtoOk(proto: ProtoChoice, target: string, options: string, p: Proto) {
    (target == "REJECT" && options == "" && proto != Both) ||
    (Contains(options, "tcp-reset") ==> p.Tcp?)
  }

  /** The options that the final rules pass on. */
  function FinalOptions(proto: ProtoChoice, target: string, options: string, p: Proto): string {
    if target == "REJECT" && options == "" && proto != Both then if p.Tcp? then TCP_RESET else "" else options
  }

  lemma RunFinal(want: Word, proto: ProtoChoice, target: string, options: string, pkt: Packet, mark: Word)
    requires want.low == 0
    ensures var v := Run(FinalRules(want, proto, target, options), pkt, mark);
            if mark.top == want.top && FinalProtoOk(proto, target, options, pkt.proto)
            then v == Taken(target, FinalOptions(proto, target, options, pkt.proto), mark)
            else v == Through(Word(0, mark.low))
  {
    var rules := FinalRules(want, proto, target, options);
    var last := Rule([], SetMark(ZERO, SCRATCH));
    var ready := Check(Connmark(want, SCRATCH), false);
    MaskTop(mark);
    SetAll(mark, 0);
    AllHoldOne(ready, pkt, mark);
    AllHoldTwo(ProtoIs(Tcp), ready, pkt, mark);
    assert [ProtoIs(Tcp)] + [ready] == [ProtoIs(Tcp), ready] && [] + [ready] == [ready];
    RunOne(last, pkt, mark);
    RunOne(rules[0], pkt, mark);
    if target == "REJECT" && options == "" && proto != Both {
      assert rules == [rules[0]] + ([rules[1]] + [last]);
      RunAppend([rules[0]], [rules[1]] + [last], pkt, mark);
      RunAppend([rules[1]], [last], pkt, mark);
      RunOne(rules[1], pkt, mark);
    } else {
      assert rules == [rules[0]] + [last];
      RunAppend([rules[0]], [last], pkt, mark);
    }
  }

  lemma MaskTop(mark: Word)
    ensures And(mark, SCRATCH) == Word(mark.top, 0)
  {
    MaskBits(mark.top, mark.low);
  }

  lemma MaskBits(top: bv8, low: bv24)
    ensures top & 0xFF == top && low & 0 == 0
  {
  }

  /** The final value of flag `i` is reached. */
  ghost predicate Ready(c: Category, i: nat, proto: ProtoChoice, pkt: Packet, mark: Word) {
    !c.multi ||
    if c.negated then (i == 0 ==> pkt.proto.Tcp? && IsHttp(pkt)) && !Hit(c.tests, proto, c.strict, pkt, mark)
    else Hit(c.tests, proto, c.strict, pkt, mark)
  }

  ghost predicate AllReady(cats: seq<Category>, proto: ProtoChoice, pkt: Packet, mark: Word) {
    forall i | 0 <= i < |cats| :: Ready(cats[i], i, proto, pkt, mark)
  }

  /** The scratch byte as the tests of flag `i` find it, if the flags before it have got their final
      values: the flags from `i` on are those preset by negated categories. */
  function SeenFlags(cats: seq<Category>, i: nat): (fs: seq<bool>)
    ensures |fs| == |cats| && forall j | 0 <= j < |fs| :: fs[j] == (cats[j].multi && (j < i || cats[j].negated))
  {
    seq(|cats|, j requires 0 <= j < |cats| => cats[j].multi && (j < i || cats[j].negated))
  }

  function SeenMark(cats: seq<Category>, i: nat, mark: Word): Word
    requires |cats| <= 8
  {
    Word(FlagSum(SeenFlags(cats, i)).top, mark.low)
  }

  /** Every flag gets its final value, its tests looking at the scratch byte they find. */
  ghost predicate AllReadySeen(cats: seq<Category>, k: nat, proto: ProtoChoice, pkt: Packet, mark: Word)
    requires k <= |cats| <= 8
  {
    forall i | 0 <= i < k :: Ready(cats[i], i, proto, pkt, SeenMark(cats, i, mark))
  }

  /** The mark `m` holds the final values of the first `k` flags and the presets of the others. */
  ghost predicate FinalUpTo(cats: seq<Category>, k: nat, m: Word)
    requires k <= |cats| <= 8
  {
    forall j: nat | j < k :: Flag(m, j) == cats[j].multi
  }

  ghost predicate PresetFrom(cats: seq<Category>, k: nat, pkt: Packet, m: Word)
    requires k <= |cats| <= 8 && cats != []
  {
    forall j: nat | k <= j < 8 :: Flag(m, j) == FlagPreset(cats, pkt, j)
  }

  lemma SeenIs(cats: seq<Category>, k: nat, pkt: Packet, m: Word)
    requires 0 < k <= |cats| <= 8 && FinalUpTo(cats, k, m) && PresetFrom(cats, k, pkt, m)
    ensures m == SeenMark(cats, k, m)
  {
    var seen := SeenMark(cats, k, m);
    FlagSumFlags(SeenFlags(cats, k));
    SameFlags(FlagSum(SeenFlags(cats, k)), seen.top);
    SameFlags(seen, seen.top);
    forall j: nat | j < 8 ensures Flag(m, j) == Flag(seen, j) {
      assert Flag(FlagSum(SeenFlags(cats, k)), j) == (j < |cats| && SeenFlags(cats, k)[j]);
    }
    FlagsDecide(m, seen);
  }

  /** The first `k` flags get their final values exactly if each is ready at the mark it sees. The
      first flag has no use for the mark. */
  lemma {:induction false} FlagsReady(cats: seq<Category>, k: nat, proto: ProtoChoice, pkt: Packet, mark: Word)
    requires k <= |cats| <= 8 && cats != [] && LowTests(cats[0].tests) && PresetFrom(cats, 0, pkt, mark)
    ensures var m := MarkAfter(cats, k, proto, pkt, mark);
            m.low == mark.low && PresetFrom(cats, k, pkt, m) &&
            (FinalUpTo(cats, k, m) <==> AllReadySeen(cats, k, proto, pkt, mark))
  {
    hide *;
    if k == 0 {
      NoFlagsYet(cats, proto, pkt, mark);
    } else {
      FlagsReady(cats, k - 1, proto, pkt, mark);
      OneMoreFlag(cats, k - 1, proto, pkt, mark);
      NextReady(cats, k - 1, proto, pkt, mark, MarkAfter(cats, k - 1, proto, pkt, mark),
                MarkAfter(cats, k, proto, pkt, mark));
    }
  }

  lemma NoFlagsYet(cats: seq<Category>, proto: ProtoChoice, pkt: Packet, mark: Word)
    requires |cats| <= 8
    ensures var m := MarkAfter(cats, 0, proto, pkt, mark);
            m == mark && FinalUpTo(cats, 0, m) && AllReadySeen(cats, 0, proto, pkt, mark)
  {
    assert cats[..0] == [];
  }

  lemma NextReady(cats: seq<Category>, k: nat, proto: ProtoChoice, pkt: Packet, mark: Word, m: Word, m': Word)
    requires k < |cats| <= 8 && LowTests(cats[0].tests) && m.low == mark.low && PresetFrom(cats, k, pkt, m)
    requires FinalUpTo(cats, k, m) <==> AllReadySeen(cats, k, proto, pkt, mark)
    requires var c := cats[k]; Overwrites(m', m, k, c.multi && Hit(c.tests, proto, c.strict, pkt, m), !c.negated)
    ensures m'.low == mark.low && PresetFrom(cats, k + 1, pkt, m')
    ensures FinalUpTo(cats, k + 1, m') <==> AllReadySeen(cats, k + 1, proto, pkt, mark)
  {
    var c := cats[k];
    assert FinalUpTo(cats, k + 1, m') <==> FinalUpTo(cats, k, m) && Flag(m', k) == c.multi by {
      if FinalUpTo(cats, k + 1, m') {
        forall j: nat | j < k ensures Flag(m, j) == cats[j].multi { assert Flag(m', j) == Flag(m, j); }
      }
    }
    assert AllReadySeen(cats, k + 1, proto, pkt, mark) <==>
           AllReadySeen(cats, k, proto, pkt, mark) && Ready(c, k, proto, pkt, SeenMark(cats, k, mark));
    assert Flag(m, k) == FlagPreset(cats, pkt, k);
    assert Flag(m', k) == c.multi <==> Ready(c, k, proto, pkt, m);
    if FinalUpTo(cats, k, m) {
      if k == 0 {
        SomeHoldsLow(c.tests, pkt, m, SeenMark(cats, k, mark));
      } else {
        SeenIs(cats, k, pkt, m);
      }
    }
  }

  /** The outcome of a chain that started with a zero scratch byte: the low bits of the mark
      are never touched, and the scratch byte is zero again unless the target is taken. */
  ghost predicate Ends(v: Verdict, taken: bool, target: string, options: string, mark: Word) {
    v.mark.low == mark.low &&
    if taken then v.Taken? && v.target == target && v.options == options else v == Through(Word(0, mark.low))
  }

  /** Presets and flag rules: the flags end at their final values exactly if all are ready. */
  lemma RunToFinal(cats: seq<Category>, proto: ProtoChoice, pkt: Packet, mark: Word) returns (m: Word)
    requires 0 < |cats| <= 8 && LowTests(cats[0].tests) && mark.top == 0
    ensures Run(PresetRules(cats) + FlagRules(cats, proto), pkt, mark) == Through(m) && m.low == mark.low
    ensures m.top == FlagSum(FinalFlags(cats)).top <==> AllReadySeen(cats, |cats|, proto, pkt, mark)
  {
    hide Run, PresetRules, FlagRules, FlagSum, LowTests, SomeHolds, Ready, PresetFrom, FinalUpTo;
    var n := |cats|;
    RunPresets(cats, pkt, mark);
    var m0 := Run(PresetRules(cats), pkt, mark).mark;
    assert PresetFrom(cats, 0, pkt, m0) by { StartsPreset(cats, pkt, m0); }
    FlagsReady(cats, n, proto, pkt, m0);
    FlagsThrough(cats, proto, pkt, m0);
    assert cats[..n] == cats;
    m := MarkAfter(cats, n, proto, pkt, m0);
    FlagSumFlags(FinalFlags(cats));
    FinalIsWanted(cats, pkt, m, FlagSum(FinalFlags(cats)));
    RunAppend(PresetRules(cats), FlagRules(cats, proto), pkt, mark);
    SeenSame(cats, proto, pkt, m0, mark);
  }

  lemma StartsPreset(cats: seq<Category>, pkt: Packet, m: Word)
    requires 0 < |cats| <= 8 && forall j: nat | j < 8 :: Flag(m, j) == FlagPreset(cats, pkt, j)
    ensures PresetFrom(cats, 0, pkt, m)
  {
  }

  lemma SeenSame(cats: seq<Category>, proto: ProtoChoice, pkt: Packet, a: Word, b: Word)
    requires |cats| <= 8 && a.low == b.low
    ensures AllReadySeen(cats, |cats|, proto, pkt, a) == AllReadySeen(cats, |cats|, proto, pkt, b)
  {
    assert forall i: nat :: SeenMark(cats, i, a) == SeenMark(cats, i, b);
  }

  lemma RunMulti(cats: seq<Category>, proto: ProtoChoice, target: string, options: string, pkt: Packet, mark: Word)
    requires 0 < |cats| <= 8 && LowTests(cats[0].tests) && mark.top == 0
    ensures Ends(Run(MultiChain(cats, proto, target, options), pkt, mark),
                 FinalProtoOk(proto, target, options, pkt.proto) &&
                 AllReadySeen(cats, |cats|, proto, pkt, mark), target,
                 FinalOptions(proto, target, options, pkt.proto), mark)
  {
    hide Run, PresetRules, FlagRules, FinalRules, FlagSum, FinalProtoOk, AllReadySeen, FinalOptions;
    var want := FlagSum(FinalFlags(cats));
    FlagSumFlags(FinalFlags(cats));
    var m := RunToFinal(cats, proto, pkt, mark);
    RunFinal(want, proto, target, options, pkt, m);
    RunAppend(PresetRules(cats) + FlagRules(cats, proto), FinalRules(want, proto, target, options), pkt, mark);
  }

  lemma FinalIsWanted(cats: seq<Category>, pkt: Packet, m: Word, want: Word)
    requires 0 < |cats| <= 8 && PresetFrom(cats, |cats|, pkt, m)
    requires forall j: nat | j < 8 :: Flag(want, j) == (j < |cats| && cats[j].multi)
    ensures m.top == want.top <==> FinalUpTo(cats, |cats|, m)
  {
    FlagsDecide(m, want);
    forall j: nat | |cats| <= j < 8 ensures Flag(m, j) == Flag(want, j) {
      assert Flag(m, j) == FlagPreset(cats, pkt, j);
    }
    if FinalUpTo(cats, |cats|, m) {
      forall j: nat | j < 8 ensures Flag(m, j) == Flag(want, j) {
        if j < |cats| { assert Flag(m, j) == cats[j].multi; }
      }
    } else {
      var j: nat :| j < |cats| && Flag(m, j) != cats[j].multi;
      assert Flag(m, j) != Flag(want, j);
    }
  }
}

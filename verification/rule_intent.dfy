/** What a definition asks for, said on its own fields and on the outcomes of a packet, without any of the functions
    of the compiler. Ingress means that the local side is the destination. */
module RuleIntent {
  import opened Wrappers
  import opened Netfilter
  import opened RuleCompiler
  import opened RuleMeaning
  import opened RuleFaithful
  import opened RuleExact
  import RuleCases

  // ---------- the condition ----------

  ghost predicate Passes(pkt: Packet, kind: Kind, args: seq<string>) {
    exists a | a in args :: pkt.outcome(kind, a)
  }

  /** A list that is given must be passed; failing that, one that is excluded must not. */
  ghost predicate Listed(pkt: Packet, kind: Kind, args: Option<seq<string>>, notArgs: Option<seq<string>>) {
    if args.Some? then Passes(pkt, kind, args.value) else notArgs.Some? ==> !Passes(pkt, kind, notArgs.value)
  }

  ghost predicate ComesFrom(pkt: Packet, a: Addrs) {
    Passes(pkt, SrcIp, a.ips) || Passes(pkt, SrcRange, a.ranges) || Passes(pkt, SrcMac, a.macs)
  }

  /** The MAC address of a destination cannot be matched. */
  ghost predicate GoesTo(pkt: Packet, a: Addrs) {
    Passes(pkt, DstIp, a.ips) || Passes(pkt, DstRange, a.ranges)
  }

  ghost predicate FromListed(pkt: Packet, addrs: Option<Addrs>, notAddrs: Option<Addrs>) {
    if addrs.Some? then ComesFrom(pkt, addrs.value) else notAddrs.Some? ==> !ComesFrom(pkt, notAddrs.value)
  }

  ghost predicate ToListed(pkt: Packet, addrs: Option<Addrs>, notAddrs: Option<Addrs>) {
    if addrs.Some? then GoesTo(pkt, addrs.value) else notAddrs.Some? ==> !GoesTo(pkt, notAddrs.value)
  }

  predicate NoUrl(u: UrlLists) {
    u.contains == [] && u.regex == [] && u.exact == [] && u.domainContains == [] && u.domainRegex == [] &&
    u.domainExact == []
  }

  ghost predicate PassesUrl(pkt: Packet, u: UrlLists) {
    Passes(pkt, UrlContains, u.contains) || Passes(pkt, UrlRegex, u.regex) || Passes(pkt, UrlExact, u.exact) ||
    Passes(pkt, UrlDomainContains, u.domainContains) || Passes(pkt, UrlDomainRegex, u.domainRegex) ||
    Passes(pkt, UrlDomainExact, u.domainExact)
  }

  /** Excluding URLs asks for an HTTP request; URLs that are given hide those that are excluded. */
  ghost predicate UrlListed(pkt: Packet, urls: UrlLists, notUrls: UrlLists) {
    if !NoUrl(urls) then PassesUrl(pkt, urls)
    else !NoUrl(notUrls) ==> pkt.outcome(UrlContains, "http") && !PassesUrl(pkt, notUrls)
  }

  ghost predicate SomeMark(ms: seq<Mark>, mark: Word) {
    exists m | m in ms ::
      m.value == Word(mark.top & m.mask.top, mark.low & m.mask.low)
  }

  ghost predicate Marked(def: RuleDef, mark: Word) {
    if def.connmark.Some? then SomeMark(def.connmark.value, mark)
    else def.notConnmark.Some? ==> !SomeMark(def.notConnmark.value, mark)
  }

  /** Weekly ranges hide hours and weekdays, which count together if both are given. */
  ghost predicate InTime(def: RuleDef, pkt: Packet) {
    match (def.weeklyRanges, def.hours, def.weekdays)
    case (Some(w), _, _) => pkt.outcome(TimeRange, "--weekly_ranges " + w)
    case (None, Some(h), Some(d)) => pkt.outcome(TimeRange, "--hours " + h + " --weekdays " + d)
    case (None, Some(h), None) => pkt.outcome(TimeRange, "--hours " + h)
    case (None, None, Some(d)) => pkt.outcome(TimeRange, "--weekdays " + d)
    case (None, None, None) => true
  }

  /** A size counts only if both of its bounds are given. */
  ghost predicate OfKind(def: RuleDef, pkt: Packet) {
    (def.layer7.Some? ==> pkt.outcome(Layer7, def.layer7.value)) &&
    (def.ipp2p.Some? ==> pkt.outcome(Ipp2p, def.ipp2p.value)) &&
    (def.minSize.Some? && def.maxSize.Some? ==>
       pkt.outcome(PktLength, def.minSize.value + ":" + def.maxSize.value))
  }

  /** Naming URLs means TCP, and naming ports means a protocol that has them. */
  predicate OfProtocol(def: RuleDef, p: Proto) {
    if !NoUrl(def.urls) || !NoUrl(def.notUrls) then p == Tcp
    else match def.proto
      case JustTcp => p == Tcp
      case JustUdp => p == Udp
      case Both =>
        def.localPort.Some? || def.notLocalPort.Some? || def.remotePort.Some? || def.notRemotePort.Some? ==>
          p == Tcp || p == Udp
  }

  ghost predicate Meant(def: RuleDef, ingress: bool, pkt: Packet, mark: Word) {
    OfProtocol(def, pkt.proto) && UrlListed(pkt, def.urls, def.notUrls) && Listed(pkt, FwMark, def.mark, def.notMark) &&
    Marked(def, mark) && InTime(def, pkt) && OfKind(def, pkt) &&
    if ingress then
      FromListed(pkt, def.remoteAddr, def.notRemoteAddr) && ToListed(pkt, def.localAddr, def.notLocalAddr) &&
      Listed(pkt, SrcPort, def.remotePort, def.notRemotePort) && Listed(pkt, DstPort, def.localPort, def.notLocalPort)
    else
      FromListed(pkt, def.localAddr, def.notLocalAddr) && ToListed(pkt, def.remoteAddr, def.notRemoteAddr) &&
      Listed(pkt, SrcPort, def.localPort, def.notLocalPort) && Listed(pkt, DstPort, def.remotePort, def.notRemotePort)
  }

  /** White-listed URLs let through whatever else is sent to port 80 and is not an HTTP request. */
  ghost predicate BesideWhiteList(def: RuleDef, ingress: bool, target: string, pkt: Packet) {
    (!NoUrl(def.urls) || !NoUrl(def.notUrls)) && target == "ACCEPT" && !ingress && pkt.proto == Tcp &&
    pkt.outcome(DstPort, "80") && !pkt.outcome(UrlContains, "http")
  }

  // ---------- it is what the theorems are about ----------

  lemma TestsPass(pkt: Packet, kind: Kind, args: seq<string>, mark: Word)
    ensures SomeHolds(Tests(kind, args), pkt, mark) == Passes(pkt, kind, args)
  {
    var ts := Tests(kind, args);
    if SomeHolds(ts, pkt, mark) {
      var t :| t in ts && TestHolds(t, pkt, mark);
      var i :| 0 <= i < |ts| && ts[i] == t;
      assert args[i] in args && pkt.outcome(kind, args[i]);
    }
    if a :| a in args && pkt.outcome(kind, a) {
      var i :| 0 <= i < |args| && args[i] == a;
      assert ts[i] in ts && TestHolds(ts[i], pkt, mark);
    }
  }

  lemma ListMeans(pkt: Packet, kind: Kind, args: Option<seq<string>>, notArgs: Option<seq<string>>, mark: Word)
    ensures ListHolds(OptTests(kind, args), OptTests(kind, notArgs), pkt, mark) == Listed(pkt, kind, args, notArgs)
  {
    hide SomeHolds, Passes, Tests;
    if args.Some? { TestsPass(pkt, kind, args.value, mark); }
    if notArgs.Some? { TestsPass(pkt, kind, notArgs.value, mark); }
  }

  lemma {:induction false} ConcatHolds(parts: seq<seq<Test>>, pkt: Packet, mark: Word)
    ensures SomeHolds(Concat(parts), pkt, mark) == exists i | 0 <= i < |parts| :: SomeHolds(parts[i], pkt, mark)
  {
    if parts != [] {
      var n := |parts| - 1;
      var front, last := Concat(parts[..n]), parts[n];
      ConcatHolds(parts[..n], pkt, mark);
      EitherHolds(front, last, pkt, mark);
      hide SomeHolds, Concat;
      assert Concat(parts) == front + last by { ConcatStep(parts); }
      if i :| 0 <= i < |parts| && SomeHolds(parts[i], pkt, mark) {
        if i < n { assert parts[..n][i] == parts[i]; }
      }
      if SomeHolds(front, pkt, mark) {
        var i :| 0 <= i < n && SomeHolds(parts[..n][i], pkt, mark);
        assert SomeHolds(parts[i], pkt, mark);
      }
    }
  }

  lemma ConcatStep(parts: seq<seq<Test>>)
    requires parts != []
    ensures Concat(parts) == Concat(parts[..|parts| - 1]) + parts[|parts| - 1]
  {
  }

  lemma EitherHolds(a: seq<Test>, b: seq<Test>, pkt: Packet, mark: Word)
    ensures SomeHolds(a + b, pkt, mark) == (SomeHolds(a, pkt, mark) || SomeHolds(b, pkt, mark))
  {
    if t :| t in a && TestHolds(t, pkt, mark) { assert t in a + b; }
    if t :| t in b && TestHolds(t, pkt, mark) { assert t in a + b; }
  }

  lemma SourceMeans(a: Addrs, pkt: Packet, mark: Word)
    ensures SomeHolds(Concat(AddrParts(a, false)), pkt, mark) == ComesFrom(pkt, a)
  {
    hide SomeHolds, Passes, Concat, Tests;
    var parts := AddrParts(a, false);
    ConcatHolds(parts, pkt, mark);
    TestsPass(pkt, SrcIp, a.ips, mark);
    TestsPass(pkt, SrcRange, a.ranges, mark);
    TestsPass(pkt, SrcMac, a.macs, mark);
    assert parts[0] == Tests(SrcIp, a.ips) && parts[1] == Tests(SrcRange, a.ranges) &&
           parts[2] == Tests(SrcMac, a.macs);
  }

  lemma DestinationMeans(a: Addrs, pkt: Packet, mark: Word)
    ensures SomeHolds(Concat(AddrParts(a, true)), pkt, mark) == GoesTo(pkt, a)
  {
    hide SomeHolds, Passes, Concat, Tests;
    var parts := AddrParts(a, true);
    ConcatHolds(parts, pkt, mark);
    TestsPass(pkt, DstIp, a.ips, mark);
    TestsPass(pkt, DstRange, a.ranges, mark);
    assert parts[0] == Tests(DstIp, a.ips) && parts[1] == Tests(DstRange, a.ranges);
  }

  lemma AddrsMean(addrs: (Option<Addrs>, Option<Addrs>), pkt: Packet, mark: Word)
    ensures AddrHolds(addrs, false, pkt, mark) == FromListed(pkt, addrs.0, addrs.1)
    ensures AddrHolds(addrs, true, pkt, mark) == ToListed(pkt, addrs.0, addrs.1)
  {
    hide SomeHolds, ComesFrom, GoesTo, AddrParts, Concat;
    if addrs.0.Some? {
      SourceMeans(addrs.0.value, pkt, mark);
      DestinationMeans(addrs.0.value, pkt, mark);
    }
    if addrs.1.Some? {
      SourceMeans(addrs.1.value, pkt, mark);
      DestinationMeans(addrs.1.value, pkt, mark);
    }
  }

  lemma {:induction false} ConcatEmpty(parts: seq<seq<Test>>)
    ensures Concat(parts) == [] <==> forall i | 0 <= i < |parts| :: parts[i] == []
  {
    if parts != [] {
      var n := |parts| - 1;
      ConcatEmpty(parts[..n]);
      if forall i | 0 <= i < n :: parts[..n][i] == [] {
        assert forall i | 0 <= i < n :: parts[i] == parts[..n][i];
      }
      if forall i | 0 <= i < |parts| :: parts[i] == [] {
        assert forall i | 0 <= i < n :: parts[..n][i] == parts[i];
      }
    }
  }

  lemma SixParts(u: UrlLists)
    ensures var parts := UrlParts(u);
            |parts| == 6 &&
            parts[0] == Tests(UrlContains, u.contains) && parts[1] == Tests(UrlRegex, u.regex) &&
            parts[2] == Tests(UrlExact, u.exact) && parts[3] == Tests(UrlDomainContains, u.domainContains) &&
            parts[4] == Tests(UrlDomainRegex, u.domainRegex) && parts[5] == Tests(UrlDomainExact, u.domainExact)
  {
  }

  lemma AnyOfSix(parts: seq<seq<Test>>, pkt: Packet, mark: Word)
    requires |parts| == 6
    ensures Concat(parts) == [] <==>
            parts[0] == [] && parts[1] == [] && parts[2] == [] && parts[3] == [] && parts[4] == [] && parts[5] == []
    ensures SomeHolds(Concat(parts), pkt, mark) ==
            (SomeHolds(parts[0], pkt, mark) || SomeHolds(parts[1], pkt, mark) || SomeHolds(parts[2], pkt, mark) ||
             SomeHolds(parts[3], pkt, mark) || SomeHolds(parts[4], pkt, mark) || SomeHolds(parts[5], pkt, mark))
  {
    hide SomeHolds, Concat;
    ConcatEmpty(parts);
    ConcatHolds(parts, pkt, mark);
  }

  lemma UrlsMean(u: UrlLists, pkt: Packet, mark: Word)
    ensures Concat(UrlParts(u)) == [] <==> NoUrl(u)
    ensures SomeHolds(Concat(UrlParts(u)), pkt, mark) == PassesUrl(pkt, u)
  {
    hide SomeHolds, Passes, Concat, Tests, UrlParts;
    SixParts(u);
    AnyOfSix(UrlParts(u), pkt, mark);
    TestsPass(pkt, UrlContains, u.contains, mark);
    TestsPass(pkt, UrlRegex, u.regex, mark);
    TestsPass(pkt, UrlExact, u.exact, mark);
    TestsPass(pkt, UrlDomainContains, u.domainContains, mark);
    TestsPass(pkt, UrlDomainRegex, u.domainRegex, mark);
    TestsPass(pkt, UrlDomainExact, u.domainExact, mark);
  }

  lemma UrlMeans(def: RuleDef, pkt: Packet, mark: Word)
    ensures UrlHolds(def, pkt, mark) == UrlListed(pkt, def.urls, def.notUrls)
    ensures UrlCategory(def).tests != [] <==> !NoUrl(def.urls) || !NoUrl(def.notUrls)
  {
    hide SomeHolds, PassesUrl, UrlParts, Concat, NoUrl;
    UrlsMean(def.urls, pkt, mark);
    UrlsMean(def.notUrls, pkt, mark);
  }

  lemma ProtocolMeans(def: RuleDef, p: Proto)
    ensures ProtoAgrees(def, p) == OfProtocol(def, p)
  {
    hide UrlCategory, NoUrl;
    UrlMeans(def, Packet(p, (k: Kind, a: string) => false), ZERO);
  }

  lemma MarksMean(ms: seq<Mark>, pkt: Packet, mark: Word)
    ensures SomeHolds(OptMarks(Some(ms)).value, pkt, mark) == SomeMark(ms, mark)
  {
    MarksHold(ms, pkt, mark);
    assert forall m: Word :: And(mark, m) == Word(mark.top & m.top, mark.low & m.low);
    hide SomeHolds, OptMarks;
  }

  lemma MarkMeans(def: RuleDef, pkt: Packet, mark: Word)
    ensures ConnmarkHolds(def, pkt, mark) == Marked(def, mark)
  {
    hide SomeHolds, SomeMark;
    if def.connmark.Some? { MarksMean(def.connmark.value, pkt, mark); }
    if def.notConnmark.Some? { MarksMean(def.notConnmark.value, pkt, mark); }
  }

  lemma OneCheck(kind: Kind, arg: string, pkt: Packet, mark: Word)
    ensures AllHold([Check(Opaque(kind, arg), false)], pkt, mark) == pkt.outcome(kind, arg)
  {
    AllHoldOne(Check(Opaque(kind, arg), false), pkt, mark);
  }

  lemma TimeMeans(def: RuleDef, pkt: Packet, mark: Word)
    ensures AllHold(TimeChecks(def), pkt, mark) == InTime(def, pkt)
  {
    var checks := TimeChecks(def);
    if checks != [] {
      assert checks == [Check(Opaque(TimeRange, checks[0].test.arg), false)];
      OneCheck(TimeRange, checks[0].test.arg, pkt, mark);
    }
  }

  lemma KindMeans(def: RuleDef, pkt: Packet, mark: Word)
    ensures AllHold(OtherChecks(def), pkt, mark) == OfKind(def, pkt)
  {
    var a: seq<Match> := if def.layer7.Some? then [Check(Opaque(Layer7, def.layer7.value), false)] else [];
    var b: seq<Match> := if def.ipp2p.Some? then [Check(Opaque(Ipp2p, def.ipp2p.value), false)] else [];
    var c: seq<Match> := if def.minSize.Some? && def.maxSize.Some? then
                           [Check(Opaque(PktLength, def.minSize.value + ":" + def.maxSize.value), false)] else [];
    assert OtherChecks(def) == a + b + c;
    AllHoldAppend(a + b, c, pkt, mark);
    AllHoldAppend(a, b, pkt, mark);
    if def.layer7.Some? { OneCheck(Layer7, def.layer7.value, pkt, mark); }
    if def.ipp2p.Some? { OneCheck(Ipp2p, def.ipp2p.value, pkt, mark); }
    if def.minSize.Some? && def.maxSize.Some? {
      OneCheck(PktLength, def.minSize.value + ":" + def.maxSize.value, pkt, mark);
    }
  }

  lemma BaseMeans(def: RuleDef, pkt: Packet, mark: Word)
    ensures AllHold(BaseChecks(def), pkt, mark) == (InTime(def, pkt) && OfKind(def, pkt))
  {
    hide AllHold, TimeChecks, OtherChecks, InTime, OfKind;
    AllHoldAppend(TimeChecks(def), OtherChecks(def), pkt, mark);
    TimeMeans(def, pkt, mark);
    KindMeans(def, pkt, mark);
  }

  /** The condition that the compiler is held to is this one. */
  lemma IntendedMeans(def: RuleDef, ingress: bool, pkt: Packet, mark: Word)
    ensures Intended(def, ingress, pkt, mark) == Meant(def, ingress, pkt, mark)
  {
    hide ProtoAgrees, OfProtocol, UrlHolds, UrlListed, ListHolds, Listed, OptTests, ConnmarkHolds, Marked, AddrHolds,
         FromListed, ToListed, AllHold, BaseChecks, InTime, OfKind;
    ProtocolMeans(def, pkt.proto);
    UrlMeans(def, pkt, mark);
    ListMeans(pkt, FwMark, def.mark, def.notMark, mark);
    MarkMeans(def, pkt, mark);
    BaseMeans(def, pkt, mark);
    AddrsMean((def.localAddr, def.notLocalAddr), pkt, mark);
    AddrsMean((def.remoteAddr, def.notRemoteAddr), pkt, mark);
    ListMeans(pkt, SrcPort, def.localPort, def.notLocalPort, mark);
    ListMeans(pkt, SrcPort, def.remotePort, def.notRemotePort, mark);
    ListMeans(pkt, DstPort, def.localPort, def.notLocalPort, mark);
    ListMeans(pkt, DstPort, def.remotePort, def.notRemotePort, mark);
  }

  lemma TailMeans(def: RuleDef, ingress: bool, target: string, pkt: Packet)
    ensures TailAccepts(def, ingress, target, pkt) == BesideWhiteList(def, ingress, target, pkt)
  {
    hide UrlCategory, NoUrl;
    UrlMeans(def, pkt, ZERO);
  }

  /** Being faithful, said on the fields: the chain takes exactly the packets that are meant, and those beside the
      white list. */
  lemma FaithfulMeans(def: RuleDef, ingress: bool, target: string, options: string)
    ensures Faithful(def, ingress, target, options) <==>
            forall pkt: Packet, mark: Word | mark.top == 0 ::
              Run(Chain(def, ingress, target, options), pkt, mark).Taken? <==>
              Meant(def, ingress, pkt, mark) || BesideWhiteList(def, ingress, target, pkt)
  {
    hide Intended, Meant, TailAccepts, BesideWhiteList, Run, Chain;
    forall pkt: Packet, mark: Word
      ensures Wanted(def, ingress, target, pkt, mark) ==
              (Meant(def, ingress, pkt, mark) || BesideWhiteList(def, ingress, target, pkt))
    {
      IntendedMeans(def, ingress, pkt, mark);
      TailMeans(def, ingress, target, pkt);
    }
  }

  /** A rejected packet is answered by a TCP reset exactly if no options were given, it is TCP, and the chain has
      no flags or knows the protocol: the final rule of a chain with flags for both protocols has no reset,
      against the comment at line 491 of the source. Other options are passed on as they are. */
  lemma RejectedWith(def: RuleDef, ingress: bool, target: string, options: string, pkt: Packet, mark: Word)
    requires mark.top == 0 && MainTakes(def, ingress, target, options, pkt, mark)
    ensures var v := Run(Chain(def, ingress, target, options), pkt, mark);
            v.Taken? && v.target == target &&
            if target == "REJECT" && options == "" then
              v.options == if pkt.proto == Tcp && (!IsMulti(def, ingress) || RuleProto(def) != Both)
                           then " --reject-with tcp-reset " else ""
            else v.options == options
  {
    hide Run, Chain, MainTakes, TailAccepts, IsMulti, RuleProto;
    ChainEnds(def, ingress, target, options, pkt, mark);
    if target == "REJECT" && options == "" && RuleProto(def) == JustTcp {
      OfTcp(def, ingress, pkt, mark);
    }
    if target == "REJECT" && options == "" && RuleProto(def) == JustUdp && !IsMulti(def, ingress) {
      OfUdp(def, ingress, pkt, mark);
    }
  }

  lemma OfTcp(def: RuleDef, ingress: bool, pkt: Packet, mark: Word)
    requires MainTakes(def, ingress, "REJECT", "", pkt, mark) && RuleProto(def) == JustTcp
    ensures pkt.proto == Tcp
  {
    hide AllReady, AllHold, RuleProto, IsMulti;
    RuleCases.ResetOptions();
  }

  lemma OfUdp(def: RuleDef, ingress: bool, pkt: Packet, mark: Word)
    requires MainTakes(def, ingress, "REJECT", "", pkt, mark) && RuleProto(def) == JustUdp && !IsMulti(def, ingress)
    ensures pkt.proto == Udp
  {
    hide AllHold, RuleProto, IsMulti;
  }

  // ---------- when a definition cannot be met ----------

  /** The list is given, and holds nothing. */
  predicate Nothing<T(==)>(list: Option<seq<T>>) {
    list == Some([])
  }

  /** Some list is given and holds nothing that can be tested. */
  lemma HopelessMeans(def: RuleDef, ingress: bool)
    ensures Hopeless(def, ingress) <==>
            Nothing(def.mark) || Nothing(def.connmark) || Nothing(def.localPort) || Nothing(def.remotePort) ||
            var (src, dst) := if ingress then (def.remoteAddr, def.localAddr) else (def.localAddr, def.remoteAddr);
            (src.Some? && src.value == Addrs([], [], [])) || (dst.Some? && dst.value.ips == dst.value.ranges == [])
  {
    hide Concat, AddrParts;
    if def.localAddr.Some? { NoAddrs(def.localAddr.value); }
    if def.remoteAddr.Some? { NoAddrs(def.remoteAddr.value); }
  }

  lemma NoAddrs(a: Addrs)
    ensures Concat(AddrParts(a, false)) == [] <==> a == Addrs([], [], [])
    ensures Concat(AddrParts(a, true)) == [] <==> a.ips == a.ranges == []
  {
    hide Concat;
    var src, dst := AddrParts(a, false), AddrParts(a, true);
    ConcatEmpty(src);
    ConcatEmpty(dst);
    assert src[0] == Tests(SrcIp, a.ips) && src[1] == Tests(SrcRange, a.ranges) && src[2] == Tests(SrcMac, a.macs);
    assert dst[0] == Tests(DstIp, a.ips) && dst[1] == Tests(DstRange, a.ranges);
  }
}

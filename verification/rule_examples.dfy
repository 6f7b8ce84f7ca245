/** Definitions that compile to the wrong chain, one for each way to fail. */
module RuleExamples {
  import opened Wrappers
  import opened Netfilter
  import opened RuleCompiler
  import opened RuleMeaning
  import opened RuleFaithful
  import opened RuleExact
  import opened RuleCases

  const NO_URLS := UrlLists([], [], [], [], [], [])

  /** The definition that asks for nothing. */
  const ANY := RuleDef(None, None, None, None, None, None, None, Both, NO_URLS, NO_URLS, None, None, None, None,
                       None, None, None, None, None, None, None, None)

  /** Drop the TCP packets of all but two local hosts. */
  const NOT_THESE := ANY.(proto := JustTcp, notLocalAddr := Some(Addrs(["10.0.0.1", "10.0.0.2"], [], [])))

  /** Accept what goes to one remote host, told by its MAC. */
  const TO_MAC := ANY.(remoteAddr := Some(Addrs([], [], ["00:11:22:33:44:55"])))

  /** A packet that is neither TCP nor UDP, of no address in particular. */
  const STRANGER := Packet(OtherProto, (k: Kind, a: string) => false)

  const NO_TESTS := Category([], false, false, false)
  const NO_PORTS := Category([], false, false, true)
  const NO_URL_TESTS := Category([], true, false, false)

  lemma {:induction false} ConcatFirst(parts: seq<seq<Test>>)
    requires parts != [] && forall i | 0 < i < |parts| :: parts[i] == []
    ensures Concat(parts) == parts[0]
  {
    var n := |parts| - 1;
    if n > 0 { ConcatFirst(parts[..n]); } else { assert parts[..0] == []; }
  }

  lemma NoUrlTests(def: RuleDef)
    requires def.urls == NO_URLS && def.notUrls == NO_URLS
    ensures UrlCategory(def) == NO_URL_TESTS
  {
    ConcatFirst(UrlParts(NO_URLS));
  }

  lemma {:induction false} NoSingles(cats: seq<Category>)
    requires forall i | 0 <= i < |cats| :: CategorySingle(cats[i]) == []
    ensures Singles(cats) == []
  {
    if cats != [] { NoSingles(cats[..|cats| - 1]); }
  }

  lemma {:induction false} NoRules(cats: seq<Category>, proto: ProtoChoice)
    requires |cats| <= 8 && forall i | 0 <= i < |cats| :: !cats[i].multi
    ensures FlagRules(cats, proto) == []
  {
    if cats != [] { NoRules(cats[..|cats| - 1], proto); }
  }

  lemma {:induction false} SomeRules(cats: seq<Category>, i: nat, proto: ProtoChoice)
    requires i < |cats| <= 8 && cats[i].multi && cats[i].tests != []
    ensures FlagRules(cats, proto) != []
  {
    if i == |cats| - 1 { HasRules(cats[i], i, proto); } else { SomeRules(cats[..|cats| - 1], i, proto); }
  }

  lemma NotTheseCategories(def: RuleDef)
    requires def == NOT_THESE
    ensures var c := Category([Opaque(SrcIp, "10.0.0.1"), Opaque(SrcIp, "10.0.0.2")], true, true, false);
            Categories(def, false) == [NO_URL_TESTS, NO_TESTS, NO_TESTS, c, NO_PORTS, NO_PORTS]
    ensures RuleProto(def) == JustTcp && BaseChecks(def) == []
  {
    NoUrlTests(def);
    var parts := AddrParts(def.notLocalAddr.value, false);
    assert parts[0] == [Opaque(SrcIp, "10.0.0.1"), Opaque(SrcIp, "10.0.0.2")];
    ConcatFirst(parts);
  }

  /** The only flag is that of the negated list. */
  lemma NotTheseFlags(def: RuleDef, cats: seq<Category>)
    requires RuleProto(def) == JustTcp && BaseChecks(def) == [] && cats == Categories(def, false) && |cats| == 6
    requires cats[3].multi && cats[3].tests != [] && cats[3].negated
    requires forall i | 0 <= i < 6 && i != 3 :: !cats[i].multi && cats[i].tests == []
    ensures IsMulti(def, false) && Compiled(def, false) == cats && !Guarded(def, false)
  {
    hide Categories, FlagRules, Singles, BaseChecks, RuleProto;
    SomeRules(cats, 3, JustTcp);
    NoSingles(cats);
  }

  lemma NotTheseIsUsual(def: RuleDef)
    requires def == NOT_THESE
    ensures Usual(def, false, "") && !ProtoAgrees(def, OtherProto) && !Contains("", "tcp-reset") &&
            RuleProto(def) == JustTcp
  {
    NotTheseCategories(def);
  }

  lemma UncheckedTakes(def: RuleDef, mark: Word)
    requires def == NOT_THESE && mark.top == 0
    ensures !Checked(def, false, "DROP", "") && Takes(def, false, "DROP", "", STRANGER, mark)
    ensures !Wanted(def, false, "DROP", STRANGER, mark)
  {
    assert def.proto == JustTcp;
    hide Usual, Takes, Categories, Compiled, RuleProto, IsMulti, Guarded, ProtoAgrees, Intended, AllReady, SeenBy,
         Contains, UrlCategory, Faithful;
    NotTheseCategories(def);
    NotTheseFlags(def, Categories(def, false));
    NotTheseIsUsual(def);
    TakesIs(def, false, "DROP", "", STRANGER, mark);
    OtherProtocolReady(def, false, STRANGER, SeenBy(def, false, mark));
    UnwantedProtocol(def, false, STRANGER, mark);
  }

  /** The failure of the usual condition is real: with nothing but a negated address list, which is
      preset, packets of every protocol are dropped. */
  lemma UncheckedExample(mark: Word)
    requires mark.top == 0
    ensures Usual(NOT_THESE, false, "") && !Checked(NOT_THESE, false, "DROP", "")
    ensures Takes(NOT_THESE, false, "DROP", "", STRANGER, mark) && !Wanted(NOT_THESE, false, "DROP", STRANGER, mark)
    ensures !Faithful(NOT_THESE, false, "DROP", "")
  {
    hide Usual, Takes, Checked, Wanted;
    NotTheseIsUsual(NOT_THESE);
    UncheckedTakes(NOT_THESE, mark);
  }

  lemma ToMacCategories(def: RuleDef)
    requires def == TO_MAC
    ensures Categories(def, false) == [NO_URL_TESTS, NO_TESTS, NO_TESTS, NO_TESTS, NO_PORTS, NO_PORTS]
    ensures RuleProto(def) == Both && !HasPorts(def) && BaseChecks(def) == [] &&
            EmptyAddrs(DstAddrs(def, false).0, true)
  {
    NoUrlTests(def);
    ConcatFirst(AddrParts(def.remoteAddr.value, true));
  }

  lemma NoFlags(def: RuleDef, cats: seq<Category>, pkt: Packet, mark: Word)
    requires RuleProto(def) == Both && !HasPorts(def) && BaseChecks(def) == [] && cats == Categories(def, false)
    requires forall i | 0 <= i < |cats| :: !cats[i].multi && cats[i].tests == []
    ensures !IsMulti(def, false) && AllHold(SingleChecks(def, false), pkt, mark) && ProtoAgrees(def, pkt.proto)
  {
    hide Categories, FlagRules, Singles, BaseChecks, RuleProto;
    NoRules(cats, Both);
    NoSingles(cats);
  }

  /** Everything is accepted, and nothing was asked for. */
  lemma MacExample(pkt: Packet, mark: Word)
    requires mark.top == 0
    ensures Takes(TO_MAC, false, "ACCEPT", "", pkt, mark) && !Intended(TO_MAC, false, pkt, mark)
  {
    var def := TO_MAC;
    hide Takes, Intended, Categories, IsMulti, HasPorts, BaseChecks, RuleProto, SingleChecks, AllHold, DstAddrs,
         EmptyAddrs;
    ToMacCategories(def);
    NoFlags(def, Categories(def, false), pkt, mark);
    UselessAddressIsIgnored(def, false, "ACCEPT", "");
    TakesIs(def, false, "ACCEPT", "", pkt, mark);
  }

  const HOSTS := Addrs(["10.0.0.1", "10.0.0.2"], [], [])

  /** Drop what two local hosts send on the connections marked 5, with the mask the options give. */
  const MARKED := ANY.(localAddr := Some(HOSTS), connmark := Some([Mark(Word(0, 5), Word(0xFF, 0xFFFFFF))]))

  /** Reject the UDP packets of two local hosts. */
  const UDP_HOSTS := ANY.(localAddr := Some(HOSTS), proto := JustUdp)

  /** Drop the TCP packets of two local hosts. */
  const TCP_HOSTS := ANY.(localAddr := Some(HOSTS), proto := JustTcp)

  const HOST_TESTS := [Opaque(SrcIp, "10.0.0.1"), Opaque(SrcIp, "10.0.0.2")]

  lemma HostParts()
    ensures Concat(AddrParts(HOSTS, false)) == HOST_TESTS
  {
    assert AddrParts(HOSTS, false)[0] == HOST_TESTS;
    ConcatFirst(AddrParts(HOSTS, false));
  }

  lemma HostsCategory(def: RuleDef)
    requires def.localAddr == Some(HOSTS) && def.remoteAddr == def.notRemoteAddr == None
    ensures |Categories(def, false)| == 6 && Categories(def, false)[3] == Category(HOST_TESTS, false, true, false)
  {
    hide AddrParts, UrlCategory;
    HostParts();
  }

  lemma HostsAreHopeful(def: RuleDef)
    requires def == MARKED || def == UDP_HOSTS || def == TCP_HOSTS
    ensures !Hopeless(def, false) && UrlsMeetable(def) && RuleProto(def) == def.proto
  {
    assert def.localAddr == Some(HOSTS) && def.remoteAddr == None;
    hide AddrParts, UrlCategory;
    HostParts();
    NoUrlTests(def);
  }

  lemma HostsAreMulti(def: RuleDef)
    requires def == MARKED || def == UDP_HOSTS || def == TCP_HOSTS
    ensures IsMulti(def, false) && !Hopeless(def, false) && UrlsMeetable(def) && RuleProto(def) == def.proto
  {
    assert def.localAddr == Some(HOSTS) && def.remoteAddr == def.notRemoteAddr == None;
    hide Categories, FlagRules, Hopeless, UrlsMeetable, RuleProto;
    HostsAreHopeful(def);
    HostsCategory(def);
    SomeRules(Categories(def, false), 3, def.proto);
  }

  lemma FiveIsMarked()
    ensures And(Word(0, 5), Word(0xFF, 0xFFFFFF)) == Word(0, 5)
  {
  }

  /** Nothing is dropped, though something was asked for. */
  lemma MarkedExample(pkt: Packet, mark: Word)
    requires mark.top == 0
    ensures !Takes(MARKED, false, "DROP", "", pkt, mark) && !Faithful(MARKED, false, "DROP", "")
  {
    var def := MARKED;
    assert def.connmark == Some([Mark(Word(0, 5), Word(0xFF, 0xFFFFFF))]);
    hide Takes, Faithful, IsMulti, Hopeless, UrlsMeetable, And, UrlCategory;
    HostsAreMulti(def);
    FiveIsMarked();
    UnmaskedMarkIsMissed(def, false, "DROP", "", Word(0, 5), Word(0xFF, 0xFFFFFF));
  }

  /** The UDP packets are not rejected. */
  lemma ResetExample()
    ensures !Faithful(UDP_HOSTS, false, "REJECT", TCP_RESET)
  {
    var def := UDP_HOSTS;
    assert def.proto == JustUdp && MarkMet(def, ZERO) && ZERO.top == 0;
    hide Faithful, IsMulti, Hopeless, UrlsMeetable, MarkMet, RuleProto, Contains, Guarded;
    HostsAreMulti(def);
    ResetOptions();
    ResetOfUdp(def, false, "REJECT", TCP_RESET);
    assert Asked(def, false, ZERO);
  }

  lemma HostsAreGuarded(def: RuleDef)
    requires def == TCP_HOSTS
    ensures Guarded(def, false)
  {
    assert def.localAddr == Some(HOSTS) && def.remoteAddr == def.notRemoteAddr == None && def.proto == JustTcp;
    hide Categories, RuleProto, SingleChecks, Hopeless;
    HostsAreHopeful(def);
    HostsCategory(def);
    assert Guards(Compiled(def, false)[3], 3, RuleProto(def));
  }

  lemma HostsAreUsual(def: RuleDef)
    requires def == TCP_HOSTS
    ensures Usual(def, false, "")
  {
    assert def.connmark == def.notConnmark == None;
    hide Hopeless;
    HostsAreHopeful(def);
  }

  /** And one that compiles to the right chain, flags and all. */
  lemma GoodExample()
    ensures Faithful(TCP_HOSTS, false, "DROP", "") && IsMulti(TCP_HOSTS, false)
  {
    hide Faithful, IsMulti, Usual, Guarded, RuleProto;
    HostsAreMulti(TCP_HOSTS);
    HostsAreGuarded(TCP_HOSTS);
    HostsAreUsual(TCP_HOSTS);
    UsuallyFaithful(TCP_HOSTS, false, "DROP", "");
  }
}

/** Exactly when the chain of a definition takes the packets the definition asks for. */
module RuleExact {
  import opened Wrappers
  import opened Netfilter
  import opened RuleCompiler
  import opened RuleMeaning
  import opened RuleFaithful

  // ---------- the connection mark apart from the rest ----------

  /** The connection mark satisfies the definition's connection mark tests. */
  ghost predicate MarkAccepted(def: RuleDef, mark: Word) {
    if def.connmark.Some? then exists m | m in def.connmark.value :: And(mark, m.mask) == m.value
    else def.notConnmark.Some? ==> forall m | m in def.notConnmark.value :: And(mark, m.mask) != m.value
  }

  /** The same, but for a given list that is empty, which `Hopeless` and `Blocked` speak of. */
  ghost predicate MarkMet(def: RuleDef, mark: Word) {
    def.connmark == Some([]) || MarkAccepted(def, mark)
  }

  lemma MarksHold(ms: seq<Mark>, pkt: Packet, mark: Word)
    ensures SomeHolds(OptMarks(Some(ms)).value, pkt, mark) == exists m | m in ms :: And(mark, m.mask) == m.value
  {
    var ts := OptMarks(Some(ms)).value;
    if SomeHolds(ts, pkt, mark) {
      var t :| t in ts && TestHolds(t, pkt, mark);
      var k :| 0 <= k < |ts| && ts[k] == t;
      assert ms[k] in ms && And(mark, ms[k].mask) == ms[k].value;
    }
    if m :| m in ms && And(mark, m.mask) == m.value {
      var k :| 0 <= k < |ms| && ms[k] == m;
      assert ts[k] in ts && TestHolds(ts[k], pkt, mark);
    }
  }

  lemma ConnmarkAsks(def: RuleDef, pkt: Packet, mark: Word)
    ensures Asks(ConnmarkCategory(def), false, pkt, mark) == MarkMet(def, mark)
  {
    if def.connmark.Some? { MarksHold(def.connmark.value, pkt, mark); }
    if def.notConnmark.Some? { MarksHold(def.notConnmark.value, pkt, mark); }
  }

  function Others(def: RuleDef, ingress: bool): seq<Category> {
    [MarkCategory(def)] + AddrCategories(def, ingress) + PortCategories(def, ingress)
  }

  /** Everything the definition asks but the connection mark, which is up to the packet alone. */
  ghost predicate AsksBut(def: RuleDef, ingress: bool, pkt: Packet) {
    Asks(UrlCategory(def), true, pkt, ZERO) && AllAsk(Others(def, ingress), pkt, ZERO) &&
    AllHold(BaseChecks(def), pkt, ZERO)
  }

  lemma NoMarkAsks(c: Category, url: bool, pkt: Packet, a: Word, b: Word)
    requires NoMark(c.tests)
    ensures Asks(c, url, pkt, a) == Asks(c, url, pkt, b)
  {
    forall t | t in c.tests ensures TestHolds(t, pkt, a) == TestHolds(t, pkt, b) {}
  }

  lemma BaseAsks(def: RuleDef, pkt: Packet, mark: Word)
    ensures AllHold(BaseChecks(def), pkt, mark) == AllHold(BaseChecks(def), pkt, ZERO)
  {
    hide BaseChecks;
    BaseShape(def);
    assert forall m | m in BaseChecks(def) :: Holds(m, pkt, mark) == Holds(m, pkt, ZERO);
  }

  lemma SplitMark(def: RuleDef, ingress: bool, pkt: Packet, mark: Word)
    ensures AsksAll(def, ingress, pkt, mark) == (AsksBut(def, ingress, pkt) && MarkMet(def, mark))
  {
    hide Asks, NoMark, MarkMet, AllHold, UrlCategory, ConnmarkCategory, MarkCategory, AddrCategories, PortCategories,
         HasPorts, BaseChecks;
    var rest, others, connmark := Rest(def, ingress), Others(def, ingress), ConnmarkCategory(def);
    UrlShape(def, HasPorts(def));
    RestIsShaped(def, ingress);
    NoMarkAsks(UrlCategory(def), true, pkt, mark, ZERO);
    ConnmarkAsks(def, pkt, mark);
    BaseAsks(def, pkt, mark);
    assert AllAsk(rest, pkt, mark) == (Asks(connmark, false, pkt, mark) && AllAsk(others, pkt, mark)) by {
      assert connmark == rest[1];
      assert forall c :: c in rest <==> c == connmark || c in others;
    }
    forall c | c in others ensures Asks(c, false, pkt, mark) == Asks(c, false, pkt, ZERO) {
      NoMarkAsks(c, false, pkt, mark, ZERO);
    }
  }

  // ---------- a packet that meets all that can be met ----------

  /** A negated URL list cannot be met if it holds the very test that tells HTTP requests. */
  predicate UrlsMeetable(def: RuleDef) {
    Concat(UrlParts(def.urls)) != [] || "http" !in def.notUrls.contains
  }

  /** Passes the tests that the definition asks for, and fails those it excludes. */
  predicate Suits(def: RuleDef, ingress: bool, k: Kind, a: string) {
    if IsUrlKind(k) then Concat(UrlParts(def.urls)) != [] || (k.UrlContains? && a == "http")
    else if k.FwMark? then def.mark.Some?
    else if IsSrc(k) then SrcAddrs(def, ingress).0.Some?
    else if IsDst(k) then DstAddrs(def, ingress).0.Some?
    else if k.SrcPort? then SrcPorts(def, ingress).0.Some?
    else k.DstPort? ==> DstPorts(def, ingress).0.Some?
  }

  function Model(def: RuleDef, ingress: bool, p: Proto): Packet {
    Packet(p, (k: Kind, a: string) => Suits(def, ingress, k, a))
  }

  predicate IsSrc(k: Kind) {
    k == SrcIp || k == SrcRange || k == SrcMac
  }

  predicate IsDst(k: Kind) {
    k == DstIp || k == DstRange
  }

  ghost predicate AllPass(ts: seq<Test>, pass: bool, pkt: Packet, mark: Word) {
    forall t | t in ts :: TestHolds(t, pkt, mark) == pass
  }

  lemma PassAsks(c: Category, pkt: Packet, mark: Word)
    requires AllPass(c.tests, !c.negated, pkt, mark)
    ensures Asks(c, false, pkt, mark)
  {
    if c.tests != [] { assert c.tests[0] in c.tests; }
  }

  lemma {:induction false} ConcatPass(parts: seq<seq<Test>>, pass: bool, pkt: Packet, mark: Word)
    requires forall p | p in parts :: AllPass(p, pass, pkt, mark)
    ensures AllPass(Concat(parts), pass, pkt, mark)
  {
    if parts != [] {
      assert parts[|parts| - 1] in parts;
      ConcatPass(parts[..|parts| - 1], pass, pkt, mark);
    }
  }

  /** The packet passes the tests of an address category exactly when it is not negated. */
  lemma AddrsPass(addrs: (Option<Addrs>, Option<Addrs>), dst: bool, pkt: Packet, mark: Word)
    requires forall k, a | (if dst then IsDst(k) else IsSrc(k)) :: pkt.outcome(k, a) == addrs.0.Some?
    ensures AllAsk(AddrCategory(addrs.0, addrs.1, dst), pkt, mark)
  {
    var cs := AddrCategory(addrs.0, addrs.1, dst);
    if cs != [] {
      var parts := AddrParts(if addrs.0.Some? then addrs.0.value else addrs.1.value, dst);
      forall p | p in parts ensures AllPass(p, addrs.0.Some?, pkt, mark) {}
      ConcatPass(parts, addrs.0.Some?, pkt, mark);
      PassAsks(cs[0], pkt, mark);
    }
  }

  lemma KindPasses(kind: Kind, pos: Option<seq<string>>, neg: Option<seq<string>>, n: bool, strict: bool, pkt: Packet,
                   mark: Word)
    requires forall a :: pkt.outcome(kind, a) == pos.Some?
    ensures Asks(ListCategory(OptTests(kind, pos), OptTests(kind, neg), n, strict), false, pkt, mark)
  {
    PassAsks(ListCategory(OptTests(kind, pos), OptTests(kind, neg), n, strict), pkt, mark);
  }

  lemma {:induction false} ConcatHas(parts: seq<seq<Test>>, t: Test)
    ensures t in Concat(parts) <==> exists p | p in parts :: t in p
  {
    if parts != [] {
      var n := |parts| - 1;
      ConcatHas(parts[..n], t);
      assert parts == parts[..n] + [parts[n]];
    }
  }

  lemma HttpListed(u: UrlLists)
    ensures Opaque(UrlContains, "http") in Concat(UrlParts(u)) <==> "http" in u.contains
  {
    var t, parts := Opaque(UrlContains, "http"), UrlParts(u);
    ConcatHas(parts, t);
    assert t in Tests(UrlContains, u.contains) <==> "http" in u.contains by {
      if "http" in u.contains {
        var i :| 0 <= i < |u.contains| && u.contains[i] == "http";
        assert Tests(UrlContains, u.contains)[i] == t;
      }
    }
    assert parts[0] == Tests(UrlContains, u.contains) && parts[0] in parts;
  }

  lemma ModelUrl(def: RuleDef, ingress: bool, p: Proto)
    ensures UrlsMeetable(def) ==> Asks(UrlCategory(def), true, Model(def, ingress, p), ZERO)
  {
    var c, pkt := UrlCategory(def), Model(def, ingress, p);
    UrlShape(def, HasPorts(def));
    HttpListed(def.notUrls);
    if c.tests != [] && !c.negated { assert c.tests[0] in c.tests && TestHolds(c.tests[0], pkt, ZERO); }
  }

  lemma UrlsStuck(def: RuleDef, pkt: Packet)
    requires !UrlsMeetable(def)
    ensures !Asks(UrlCategory(def), true, pkt, ZERO)
  {
    HttpListed(def.notUrls);
    assert TestHolds(Opaque(UrlContains, "http"), pkt, ZERO) == IsHttp(pkt);
  }

  lemma ModelBase(def: RuleDef, ingress: bool, p: Proto)
    ensures AllHold(BaseChecks(def), Model(def, ingress, p), ZERO)
  {
    hide BaseChecks;
    BaseShape(def);
    forall m | m in BaseChecks(def) ensures Holds(m, Model(def, ingress, p), ZERO) {
      ModelBaseCheck(def, ingress, p, m);
    }
  }

  lemma ModelBaseCheck(def: RuleDef, ingress: bool, p: Proto, m: Match)
    requires IsBaseCheck(m)
    ensures Holds(m, Model(def, ingress, p), ZERO)
  {
    assert Suits(def, ingress, m.test.kind, m.test.arg);
  }

  lemma ModelOthers(def: RuleDef, ingress: bool, p: Proto)
    ensures AllAsk(Others(def, ingress), Model(def, ingress, p), ZERO)
  {
    var pkt := Model(def, ingress, p);
    var (src, notSrc) := SrcAddrs(def, ingress);
    var (dst, notDst) := DstAddrs(def, ingress);
    var sport, dport := SrcPorts(def, ingress), DstPorts(def, ingress);
    hide Concat, UrlParts, Asks, AddrCategory, ListCategory;
    KindPasses(FwMark, def.mark, def.notMark, true, false, pkt, ZERO);
    AddrsPass((src, notSrc), false, pkt, ZERO);
    AddrsPass((dst, notDst), true, pkt, ZERO);
    KindPasses(SrcPort, sport.0, sport.1, false, true, pkt, ZERO);
    KindPasses(DstPort, dport.0, dport.1, false, true, pkt, ZERO);
    hide Suits;
    AllAskTwo(PortCategory(SrcPort, sport), PortCategory(DstPort, dport), pkt, ZERO);
    AllAskAppend(AddrCategory(src, notSrc, false), AddrCategory(dst, notDst, true), pkt, ZERO);
    AllAskAppend([MarkCategory(def)], AddrCategories(def, ingress), pkt, ZERO);
    AllAskAppend([MarkCategory(def)] + AddrCategories(def, ingress), PortCategories(def, ingress), pkt, ZERO);
  }

  /** Whatever some packet can meet, the model packet of any protocol meets. */
  lemma ModelMeets(def: RuleDef, ingress: bool, p: Proto)
    ensures AsksBut(def, ingress, Model(def, ingress, p)) == UrlsMeetable(def)
    ensures forall pkt :: AsksBut(def, ingress, pkt) ==> UrlsMeetable(def)
    ensures Model(def, ingress, p).proto == p && IsHttp(Model(def, ingress, p))
  {
    hide Asks, AllAsk, AllHold, Others, BaseChecks, UrlCategory, Concat;
    ModelUrl(def, ingress, p);
    ModelBase(def, ingress, p);
    ModelOthers(def, ingress, p);
    forall pkt | !UrlsMeetable(def) ensures !Asks(UrlCategory(def), true, pkt, ZERO) {
      UrlsStuck(def, pkt);
    }
  }

  // ---------- packets of other protocols ----------

  /** Some flag keeps out the packets of other protocols. */
  ghost predicate Guarded(def: RuleDef, ingress: bool) {
    exists i | 0 <= i < |Compiled(def, ingress)| :: Guards(Compiled(def, ingress)[i], i, RuleProto(def))
  }

  /** A flag that only a packet of the right protocol can bring to its final value. */
  ghost predicate Guards(c: Category, i: nat, proto: ProtoChoice) {
    c.multi && (if proto == Both then c.strict && !c.negated else !c.negated || i == 0)
  }

  /** A chain with flags lets packets of another protocol through: with one protocol, if all flags
      are preset; with both, if so are the flags of the ports, and the mark is right. */
  ghost predicate LetsStranger(def: RuleDef, ingress: bool, target: string, options: string, p: Proto, mark: Word) {
    IsMulti(def, ingress) && Fits(def, ingress, target, options, p) && !Guarded(def, ingress) &&
    (RuleProto(def) == Both ==> !EmptyLists(def, ingress) && MarkMet(def, SeenBy(def, ingress, mark)))
  }

  lemma GuardHolds(cats: seq<Category>, i: nat, proto: ProtoChoice, ports: bool, pkt: Packet, mark: Word)
    requires i < |cats| && Guards(cats[i], i, proto) && !Allowed(proto, ports, pkt.proto)
    requires i == 0 && cats[i].multi ==> proto == JustTcp
    ensures !AllReady(cats, proto, pkt, mark)
  {
    assert !Ready(cats[i], i, proto, pkt, mark);
  }

  lemma UrlIsTcp(def: RuleDef, ingress: bool)
    ensures Compiled(def, ingress)[0] == UrlCategory(def)
    ensures UrlCategory(def).multi ==> RuleProto(def) == JustTcp && UrlCategory(def).tests != []
  {
    CategoriesAre(def, ingress);
    assert Categories(def, ingress)[0] == UrlCategory(def);
  }

  /** A guarded chain takes no packet of another protocol. */
  lemma GuardedKeepsOut(def: RuleDef, ingress: bool, pkt: Packet, mark: Word)
    requires Guarded(def, ingress) && !ProtoAgrees(def, pkt.proto)
    ensures !AllReady(Compiled(def, ingress), RuleProto(def), pkt, mark)
  {
    hide Compiled, UrlCategory, RuleProto, HasPorts;
    var cats := Compiled(def, ingress);
    UrlIsTcp(def, ingress);
    var i :| 0 <= i < |cats| && Guards(cats[i], i, RuleProto(def));
    GuardHolds(cats, i, RuleProto(def), HasPorts(def), pkt, mark);
  }

  /** The flag of the single checks is a guard, unless any protocol will do. */
  lemma SinglesGuard(def: RuleDef, ingress: bool)
    requires SingleChecks(def, ingress) != [] && StrictSingle(def)
    ensures Guarded(def, ingress)
  {
    var cats := Compiled(def, ingress);
    assert Guards(cats[|cats| - 1], |cats| - 1, RuleProto(def));
  }

  /** An unguarded chain has no single checks. */
  lemma Unguarded(def: RuleDef, ingress: bool)
    requires !Guarded(def, ingress) && (RuleProto(def) != Both || HasPorts(def))
    ensures Compiled(def, ingress) == [UrlCategory(def)] + Rest(def, ingress) && Singles(Categories(def, ingress)) == []
    ensures !Guards(UrlCategory(def), 0, RuleProto(def)) &&
            forall c | c in Rest(def, ingress) :: !Guards(c, 1, RuleProto(def))
  {
    hide Singles, BaseChecks, RuleProto, HasPorts, UrlCategory, Rest;
    var cats, url, rest := Compiled(def, ingress), UrlCategory(def), Rest(def, ingress);
    CategoriesAre(def, ingress);
    if SingleChecks(def, ingress) != [] { SinglesGuard(def, ingress); }
    assert cats == [url] + rest;
    assert !Guards(cats[0], 0, RuleProto(def));
    forall c | c in rest ensures !Guards(c, 1, RuleProto(def)) {
      var k :| 0 <= k < |rest| && rest[k] == c;
      assert cats[k + 1] == c && !Guards(cats[k + 1], k + 1, RuleProto(def));
    }
  }

  /** A flag after the URL one, without a guard, for a packet of another protocol. */
  lemma StrangerReady(c: Category, proto: ProtoChoice, ports: bool, pkt: Packet, mark: Word)
    requires Shape(c, ports) && !Guards(c, 1, proto) && !Allowed(proto, ports, pkt.proto)
    ensures Ready(c, 1, proto, pkt, mark) ==
            (proto == Both && !c.strict && c.multi ==> !Blocks(c) && Asks(c, false, pkt, mark))
  {
  }

  lemma UrlReadyUnguarded(def: RuleDef, pkt: Packet, mark: Word)
    requires !Guards(UrlCategory(def), 0, RuleProto(def))
    ensures Ready(UrlCategory(def), 0, RuleProto(def), pkt, mark)
  {
  }

  /** With one protocol and all flags preset, every packet of another protocol is taken. */
  lemma OtherProtocolReady(def: RuleDef, ingress: bool, pkt: Packet, mark: Word)
    requires !Guarded(def, ingress) && !ProtoAgrees(def, pkt.proto) && RuleProto(def) != Both
    ensures AllReady(Compiled(def, ingress), RuleProto(def), pkt, mark)
  {
    hide Compiled, UrlCategory, RuleProto, HasPorts, Rest, Ready, Shape, Singles, NoUrl;
    var rest := Rest(def, ingress);
    Unguarded(def, ingress);
    RestIsShaped(def, ingress);
    UrlReadyUnguarded(def, pkt, mark);
    forall c | c in rest ensures Ready(c, 1, RuleProto(def), pkt, mark) {
      StrangerReady(c, RuleProto(def), HasPorts(def), pkt, mark);
    }
    ReadyByPart(UrlCategory(def), rest, RuleProto(def), pkt, mark);
  }

  /** The categories whose rules name no protocol when the definition does not. */
  function Open(def: RuleDef, ingress: bool): seq<Category> {
    [MarkCategory(def), ConnmarkCategory(def)] + AddrCategories(def, ingress)
  }

  lemma OpenInRest(def: RuleDef, ingress: bool)
    ensures forall c | c in Open(def, ingress) :: c in Rest(def, ingress) && !c.strict
    ensures forall c | c in Rest(def, ingress) && !c.strict :: c in Open(def, ingress)
    ensures ConnmarkCategory(def) in Open(def, ingress)
  {
    assert Open(def, ingress)[1] == ConnmarkCategory(def);
    assert Rest(def, ingress) == Open(def, ingress) + PortCategories(def, ingress);
  }

  /** With both protocols, no packet is taken if a list is empty or the mark is wrong. */
  lemma StrangerKeptOut(def: RuleDef, ingress: bool, pkt: Packet, mark: Word)
    requires RuleProto(def) == Both && !ProtoAgrees(def, pkt.proto) && !Guarded(def, ingress)
    requires EmptyLists(def, ingress) || !MarkMet(def, mark)
    ensures !AllReady(Compiled(def, ingress), Both, pkt, mark)
  {
    hide Compiled, UrlCategory, RuleProto, Rest, Ready, Singles, NoUrl, EmptyLists, MarkMet, Asks, ConnmarkCategory,
         Blocks, Open;
    Unguarded(def, ingress);
    ReadyByPart(UrlCategory(def), Rest(def, ingress), Both, pkt, mark);
    RestIsShaped(def, ingress);
    BlocksIfEmpty(def, ingress);
    OpenInRest(def, ingress);
    var c := ConnmarkCategory(def);
    if EmptyLists(def, ingress) {
      c :| c in Rest(def, ingress) && Blocks(c);
      BlockedNotReady(c, Both, pkt, mark);
    } else {
      ConnmarkAsks(def, pkt, mark);
      ConnmarkIsMulti(def, ingress, pkt, mark);
      StrangerReady(c, Both, HasPorts(def), pkt, mark);
    }
  }

  lemma BlockedNotReady(c: Category, proto: ProtoChoice, pkt: Packet, mark: Word)
    requires Blocks(c)
    ensures !Ready(c, 1, proto, pkt, mark)
  {
  }

  /** Without single checks an unmet connection mark test has a flag. */
  lemma ConnmarkIsMulti(def: RuleDef, ingress: bool, pkt: Packet, mark: Word)
    requires Singles(Categories(def, ingress)) == [] && !Asks(ConnmarkCategory(def), false, pkt, mark)
    ensures ConnmarkCategory(def).multi
  {
    var cats := Categories(def, ingress);
    assert cats[2] == ConnmarkCategory(def);
    if !cats[2].multi { SingleMember(cats, 2); }
  }

  lemma {:induction false} SingleMember(cats: seq<Category>, i: nat)
    requires i < |cats| && CategorySingle(cats[i]) != []
    ensures CategorySingle(cats[i])[0] in Singles(cats)
  {
    if i < |cats| - 1 { SingleMember(cats[..|cats| - 1], i); }
  }

  /** With both protocols and the flags of the ports preset, the model packet of another protocol is
      taken. */
  lemma StrangerIsReady(def: RuleDef, ingress: bool, p: Proto, mark: Word)
    requires RuleProto(def) == Both && !ProtoAgrees(def, p) && !Guarded(def, ingress)
    requires !EmptyLists(def, ingress) && MarkMet(def, mark)
    ensures AllReady(Compiled(def, ingress), Both, Model(def, ingress, p), mark)
  {
    hide Compiled, UrlCategory, RuleProto, Rest, Ready, Singles, NoUrl, EmptyLists, MarkMet, Asks, ConnmarkCategory,
         Blocks, Open, Suits;
    var pkt := Model(def, ingress, p);
    Unguarded(def, ingress);
    ReadyByPart(UrlCategory(def), Rest(def, ingress), Both, pkt, mark);
    RestIsShaped(def, ingress);
    BlocksIfEmpty(def, ingress);
    OpenInRest(def, ingress);
    OpenAsks(def, ingress, p, mark);
    UrlReadyUnguarded(def, pkt, mark);
    forall c | c in Rest(def, ingress) ensures Ready(c, 1, Both, pkt, mark) {
      StrangerReady(c, Both, HasPorts(def), pkt, mark);
    }
  }

  lemma OpenAsks(def: RuleDef, ingress: bool, p: Proto, mark: Word)
    requires MarkMet(def, mark)
    ensures forall c | c in Open(def, ingress) :: Asks(c, false, Model(def, ingress, p), mark)
  {
    hide Asks, NoMark, MarkMet, Suits, ConnmarkCategory, MarkCategory, AddrCategories, PortCategories;
    var pkt, others := Model(def, ingress, p), Others(def, ingress);
    ModelOthers(def, ingress, p);
    RestIsShaped(def, ingress);
    ConnmarkAsks(def, pkt, mark);
    forall c | c in Open(def, ingress) ensures Asks(c, false, pkt, mark) {
      if c != ConnmarkCategory(def) {
        assert c in others;
        NoMarkAsks(c, false, pkt, mark, ZERO);
      }
    }
  }

  /** What the chain takes of the packets of another protocol. */
  lemma StrangerTakes(def: RuleDef, ingress: bool, target: string, options: string, pkt: Packet, mark: Word)
    requires !ProtoAgrees(def, pkt.proto)
    ensures MainTakes(def, ingress, target, options, pkt, mark) ==>
            LetsStranger(def, ingress, target, options, pkt.proto, mark)
    ensures LetsStranger(def, ingress, target, options, pkt.proto, mark) && pkt == Model(def, ingress, pkt.proto) ==>
              MainTakes(def, ingress, target, options, pkt, mark)
  {
    hide ProtoAgrees, AllReady, Guarded, Compiled, SeenBy, EmptyLists, MarkMet, RuleProto, IsMulti, SingleChecks,
         AllHold, Suits, FinalProtoOk, TargetOptions;
    var seen := SeenBy(def, ingress, mark);
    if Guarded(def, ingress) {
      GuardedKeepsOut(def, ingress, pkt, seen);
    } else if RuleProto(def) != Both {
      OtherProtocolReady(def, ingress, pkt, seen);
    } else if EmptyLists(def, ingress) || !MarkMet(def, seen) {
      StrangerKeptOut(def, ingress, pkt, seen);
    } else {
      StrangerIsReady(def, ingress, pkt.proto, seen);
    }
  }

  // ---------- exactly when compiling preserves meaning ----------

  ghost predicate Faithful(def: RuleDef, ingress: bool, target: string, options: string) {
    forall pkt: Packet, mark: Word | mark.top == 0 ::
      Takes(def, ingress, target, options, pkt, mark) == Wanted(def, ingress, target, pkt, mark)
  }

  /** The chain lets a packet of an agreed protocol through that meets everything but the mark. */
  ghost predicate Lets(def: RuleDef, ingress: bool, target: string, options: string, p: Proto, mark: Word) {
    Fits(def, ingress, target, options, p) && !Blocked(def, ingress) && MarkMet(def, SeenBy(def, ingress, mark))
  }

  /** The definition asks for such a packet. */
  ghost predicate Asked(def: RuleDef, ingress: bool, mark: Word) {
    !Hopeless(def, ingress) && MarkMet(def, mark)
  }

  /** The condition on a definition, which no longer speaks of packets or rules: for each protocol
      the chain lets the same marks pass as the definition. */
  ghost predicate CompilesRight(def: RuleDef, ingress: bool, target: string, options: string) {
    forall p: Proto, mark: Word | mark.top == 0 ::
      if ProtoAgrees(def, p) then
        UrlsMeetable(def) ==> Lets(def, ingress, target, options, p, mark) == Asked(def, ingress, mark)
      else !LetsStranger(def, ingress, target, options, p, mark)
  }

  /** What is taken and what is wanted, for a packet of an agreed protocol. */
  lemma AgreedCase(def: RuleDef, ingress: bool, target: string, options: string, pkt: Packet, mark: Word)
    requires ProtoAgrees(def, pkt.proto)
    ensures MainTakes(def, ingress, target, options, pkt, mark) ==
            (AsksBut(def, ingress, pkt) && Lets(def, ingress, target, options, pkt.proto, mark))
    ensures Intended(def, ingress, pkt, mark) == (AsksBut(def, ingress, pkt) && Asked(def, ingress, mark))
  {
    hide ProtoAgrees, MainTakes, AsksAll, AsksBut, Fits, Blocked, Hopeless, MarkMet, SeenBy, Intended;
    AgreedTakes(def, ingress, target, options, pkt, mark);
    IntendedByCategory(def, ingress, pkt, mark);
    SplitMark(def, ingress, pkt, mark);
    SplitMark(def, ingress, pkt, SeenBy(def, ingress, mark));
  }

  lemma TakesIs(def: RuleDef, ingress: bool, target: string, options: string, pkt: Packet, mark: Word)
    requires mark.top == 0
    ensures Takes(def, ingress, target, options, pkt, mark) ==
            (MainTakes(def, ingress, target, options, pkt, mark) || TailAccepts(def, ingress, target, pkt))
  {
    hide Run, Chain, MainTakes, TailAccepts;
    ChainEnds(def, ingress, target, options, pkt, mark);
  }

  lemma UnwantedProtocol(def: RuleDef, ingress: bool, pkt: Packet, mark: Word)
    requires !ProtoAgrees(def, pkt.proto)
    ensures !Intended(def, ingress, pkt, mark)
  {
  }

  lemma FaithfulIfRight(def: RuleDef, ingress: bool, target: string, options: string, pkt: Packet, mark: Word)
    requires CompilesRight(def, ingress, target, options) && mark.top == 0
    ensures Takes(def, ingress, target, options, pkt, mark) == Wanted(def, ingress, target, pkt, mark)
  {
    hide Takes, MainTakes, AsksBut, Lets, Asked, LetsStranger, Intended, TailAccepts, ProtoAgrees, UrlsMeetable;
    TakesIs(def, ingress, target, options, pkt, mark);
    if ProtoAgrees(def, pkt.proto) {
      AgreedCase(def, ingress, target, options, pkt, mark);
      ModelMeets(def, ingress, pkt.proto);
    } else {
      StrangerTakes(def, ingress, target, options, pkt, mark);
      UnwantedProtocol(def, ingress, pkt, mark);
    }
  }

  lemma RightIfFaithful(def: RuleDef, ingress: bool, target: string, options: string, p: Proto, mark: Word)
    requires Faithful(def, ingress, target, options) && mark.top == 0
    ensures if ProtoAgrees(def, p) then
              UrlsMeetable(def) ==> Lets(def, ingress, target, options, p, mark) == Asked(def, ingress, mark)
            else !LetsStranger(def, ingress, target, options, p, mark)
  {
    hide Takes, MainTakes, AsksBut, Lets, Asked, LetsStranger, Intended, ProtoAgrees, UrlsMeetable, UrlCategory,
         IsHttp, Suits;
    var pkt := Model(def, ingress, p);
    assert Takes(def, ingress, target, options, pkt, mark) == Wanted(def, ingress, target, pkt, mark);
    TakesIs(def, ingress, target, options, pkt, mark);
    ModelMeets(def, ingress, p);
    if ProtoAgrees(def, p) {
      AgreedCase(def, ingress, target, options, pkt, mark);
    } else {
      StrangerTakes(def, ingress, target, options, pkt, mark);
      UnwantedProtocol(def, ingress, pkt, mark);
    }
  }

  /** For every definition, direction, target and options: the compiled chain takes exactly the
      wanted packets if and only if the condition holds. */
  lemma FaithfulExactly(def: RuleDef, ingress: bool, target: string, options: string)
    ensures Faithful(def, ingress, target, options) <==> CompilesRight(def, ingress, target, options)
  {
    hide Takes, Wanted, Lets, Asked, LetsStranger, ProtoAgrees, UrlsMeetable;
    if CompilesRight(def, ingress, target, options) {
      forall pkt: Packet, mark: Word | mark.top == 0
        ensures Takes(def, ingress, target, options, pkt, mark) == Wanted(def, ingress, target, pkt, mark)
      {
        FaithfulIfRight(def, ingress, target, options, pkt, mark);
      }
    }
    if Faithful(def, ingress, target, options) {
      forall p: Proto, mark: Word | mark.top == 0
        ensures if ProtoAgrees(def, p) then
                  UrlsMeetable(def) ==> Lets(def, ingress, target, options, p, mark) == Asked(def, ingress, mark)
                else !LetsStranger(def, ingress, target, options, p, mark)
      {
        RightIfFaithful(def, ingress, target, options, p, mark);
      }
    }
  }
}

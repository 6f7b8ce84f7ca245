/** Compiling preserves meaning: when, and exactly when, the chain of a definition takes the
    packets the definition asks for. */
module RuleFaithful {
  import opened Wrappers
  import opened Netfilter
  import opened RuleCompiler
  import opened RuleMeaning

  // ---------- the definition, category by category ----------

  /** What a category asks of a packet; one without tests asks nothing. */
  ghost predicate Asks(c: Category, url: bool, pkt: Packet, mark: Word) {
    c.tests == [] ||
    if c.negated then (url ==> IsHttp(pkt)) && !SomeHolds(c.tests, pkt, mark) else SomeHolds(c.tests, pkt, mark)
  }

  ghost predicate AllAsk(cats: seq<Category>, pkt: Packet, mark: Word) {
    forall c | c in cats :: Asks(c, false, pkt, mark)
  }

  /** The categories after the URL one. */
  function Rest(def: RuleDef, ingress: bool): seq<Category> {
    [MarkCategory(def), ConnmarkCategory(def)] + AddrCategories(def, ingress) + PortCategories(def, ingress)
  }

  lemma CategoriesAre(def: RuleDef, ingress: bool)
    ensures Categories(def, ingress) == [UrlCategory(def)] + Rest(def, ingress)
  {
    hide UrlCategory, MarkCategory, ConnmarkCategory, AddrCategories, PortCategories;
    var u, m, c := UrlCategory(def), MarkCategory(def), ConnmarkCategory(def);
    assert [u, m, c] == [u] + [m, c];
  }

  lemma AllAskAppend(a: seq<Category>, b: seq<Category>, pkt: Packet, mark: Word)
    ensures AllAsk(a + b, pkt, mark) == (AllAsk(a, pkt, mark) && AllAsk(b, pkt, mark))
  {
    if AllAsk(a + b, pkt, mark) {
      forall c | c in a ensures Asks(c, false, pkt, mark) { assert c in a + b; }
      forall c | c in b ensures Asks(c, false, pkt, mark) { assert c in a + b; }
    }
  }

  lemma AllAskTwo(a: Category, b: Category, pkt: Packet, mark: Word)
    ensures AllAsk([a, b], pkt, mark) == (Asks(a, false, pkt, mark) && Asks(b, false, pkt, mark))
  {
    assert a in [a, b] && b in [a, b];
  }

  /** Address lists that are given, but hold nothing their direction can test: a destination is not
      told by its MAC. */
  predicate EmptyAddrs(addrs: Option<Addrs>, dst: bool) {
    addrs.Some? && Concat(AddrParts(addrs.value, dst)) == []
  }

  /** Some list asks for one of no alternatives. */
  predicate Hopeless(def: RuleDef, ingress: bool) {
    EmptyLists(def, ingress) || EmptyAddrs(SrcAddrs(def, ingress).0, false) ||
    EmptyAddrs(DstAddrs(def, ingress).0, true)
  }

  predicate EmptyLists(def: RuleDef, ingress: bool) {
    def.mark == Some([]) || def.connmark == Some([]) ||
    SrcPorts(def, ingress).0 == Some([]) || DstPorts(def, ingress).0 == Some([])
  }

  lemma AddrAsks(addrs: (Option<Addrs>, Option<Addrs>), dst: bool, pkt: Packet, mark: Word)
    ensures AddrHolds(addrs, dst, pkt, mark) ==
            (!EmptyAddrs(addrs.0, dst) && AllAsk(AddrCategory(addrs.0, addrs.1, dst), pkt, mark))
  {
    var cs := AddrCategory(addrs.0, addrs.1, dst);
    if cs != [] {
      assert cs == [cs[0]] && cs[0] in cs;
      assert AllAsk(cs, pkt, mark) == Asks(cs[0], false, pkt, mark);
    }
  }

  lemma ListAsks(pos: Option<seq<Test>>, neg: Option<seq<Test>>, n: bool, strict: bool, pkt: Packet, mark: Word)
    ensures ListHolds(pos, neg, pkt, mark) ==
            (pos != Some([]) && Asks(ListCategory(pos, neg, n, strict), false, pkt, mark))
  {
  }

  lemma RestAsks(def: RuleDef, ingress: bool, pkt: Packet, mark: Word)
    ensures AllAsk(Rest(def, ingress), pkt, mark) ==
            (Asks(MarkCategory(def), false, pkt, mark) && Asks(ConnmarkCategory(def), false, pkt, mark) &&
             AllAsk(AddrCategory(SrcAddrs(def, ingress).0, SrcAddrs(def, ingress).1, false), pkt, mark) &&
             AllAsk(AddrCategory(DstAddrs(def, ingress).0, DstAddrs(def, ingress).1, true), pkt, mark) &&
             Asks(PortCategory(SrcPort, SrcPorts(def, ingress)), false, pkt, mark) &&
             Asks(PortCategory(DstPort, DstPorts(def, ingress)), false, pkt, mark))
  {
    hide AllAsk, Asks, MarkCategory, ConnmarkCategory, AddrCategory, PortCategory, SrcAddrs, DstAddrs, SrcPorts,
         DstPorts;
    var (src, notSrc) := SrcAddrs(def, ingress);
    var (dst, notDst) := DstAddrs(def, ingress);
    var marks, addrs, ports := [MarkCategory(def), ConnmarkCategory(def)], AddrCategories(def, ingress),
        PortCategories(def, ingress);
    AllAskAppend(marks + addrs, ports, pkt, mark);
    AllAskAppend(marks, addrs, pkt, mark);
    AllAskTwo(MarkCategory(def), ConnmarkCategory(def), pkt, mark);
    AllAskTwo(ports[0], ports[1], pkt, mark);
    AllAskAppend(AddrCategory(src, notSrc, false), AddrCategory(dst, notDst, true), pkt, mark);
  }

  ghost predicate AsksAll(def: RuleDef, ingress: bool, pkt: Packet, mark: Word) {
    Asks(UrlCategory(def), true, pkt, mark) && AllAsk(Rest(def, ingress), pkt, mark) &&
    AllHold(BaseChecks(def), pkt, mark)
  }

  /** The definition's condition, read off its categories. */
  lemma IntendedByCategory(def: RuleDef, ingress: bool, pkt: Packet, mark: Word)
    ensures Intended(def, ingress, pkt, mark) ==
            (ProtoAgrees(def, pkt.proto) && !Hopeless(def, ingress) && AsksAll(def, ingress, pkt, mark))
  {
    hide Asks, AllAsk, SomeHolds, ListHolds, AddrHolds, ListCategory, AddrCategory, Concat, AllHold, BaseChecks,
         Rest, ProtoAgrees, SrcAddrs, DstAddrs, SrcPorts, DstPorts, EmptyAddrs, UrlHolds, UrlCategory;
    RestAsks(def, ingress, pkt, mark);
    UrlAsks(def, pkt, mark);
    AddrAsks(SrcAddrs(def, ingress), false, pkt, mark);
    AddrAsks(DstAddrs(def, ingress), true, pkt, mark);
    ListAsks(OptTests(FwMark, def.mark), OptTests(FwMark, def.notMark), true, false, pkt, mark);
    ListAsks(OptMarks(def.connmark), OptMarks(def.notConnmark), false, false, pkt, mark);
    var sport, dport := SrcPorts(def, ingress), DstPorts(def, ingress);
    GivenEmpty(FwMark, def.mark);
    MarksGivenEmpty(def.connmark);
    GivenEmpty(SrcPort, sport.0);
    GivenEmpty(DstPort, dport.0);
    hide OptTests, OptMarks;
    ListAsks(OptTests(SrcPort, sport.0), OptTests(SrcPort, sport.1), false, true, pkt, mark);
    ListAsks(OptTests(DstPort, dport.0), OptTests(DstPort, dport.1), false, true, pkt, mark);
  }

  lemma GivenEmpty(kind: Kind, args: Option<seq<string>>)
    ensures OptTests(kind, args) == Some([]) <==> args == Some([])
  {
    if args.Some? && args.value == [] { assert Tests(kind, args.value) == []; }
  }

  lemma MarksGivenEmpty(marks: Option<seq<Mark>>)
    ensures OptMarks(marks) == Some([]) <==> marks == Some([])
  {
    if marks.Some? {
      var ms := marks.value;
      assert |OptMarks(marks).value| == |ms|;
      if ms == [] { assert OptMarks(marks).value == []; }
    }
  }

  lemma UrlAsks(def: RuleDef, pkt: Packet, mark: Word)
    ensures UrlHolds(def, pkt, mark) == Asks(UrlCategory(def), true, pkt, mark)
  {
  }

  // ---------- the shape of categories ----------

  ghost predicate UrlOnly(ts: seq<Test>) {
    forall t | t in ts :: t.Opaque? && IsUrlKind(t.kind)
  }

  ghost predicate NoUrl(ts: seq<Test>) {
    forall t | t in ts :: t.Opaque? ==> !IsUrlKind(t.kind)
  }

  ghost predicate NoMark(ts: seq<Test>) {
    forall t | t in ts :: t.Opaque?
  }

  /** A category without rules has at most one test, and only port tests insist on a protocol. */
  ghost predicate Shape(c: Category, ports: bool) {
    (!c.multi ==> |c.tests| <= 1) && (c.strict && c.tests != [] ==> ports)
  }

  ghost predicate RestShape(cs: seq<Category>, ports: bool) {
    forall c | c in cs :: Shape(c, ports) && NoUrl(c.tests)
  }

  ghost predicate NoMarks(cs: seq<Category>) {
    forall c | c in cs :: NoMark(c.tests)
  }

  lemma {:induction false} ConcatTests(parts: seq<seq<Test>>, url: bool)
    requires forall p | p in parts :: NoMark(p) && if url then UrlOnly(p) else NoUrl(p)
    ensures NoMark(Concat(parts)) && if url then UrlOnly(Concat(parts)) else NoUrl(Concat(parts))
  {
    if parts != [] {
      assert parts[|parts| - 1] in parts;
      ConcatTests(parts[..|parts| - 1], url);
    }
  }

  lemma UrlShape(def: RuleDef, ports: bool)
    ensures Shape(UrlCategory(def), ports) && UrlOnly(UrlCategory(def).tests) && NoMark(UrlCategory(def).tests)
  {
    ConcatTests(UrlParts(def.urls), true);
    ConcatTests(UrlParts(def.notUrls), true);
  }

  lemma AddrShape(addrs: (Option<Addrs>, Option<Addrs>), dst: bool, ports: bool)
    ensures RestShape(AddrCategory(addrs.0, addrs.1, dst), ports) && NoMarks(AddrCategory(addrs.0, addrs.1, dst))
  {
    if addrs.0.Some? { ConcatTests(AddrParts(addrs.0.value, dst), false); }
    if addrs.1.Some? { ConcatTests(AddrParts(addrs.1.value, dst), false); }
  }

  lemma ListShape(pos: Option<seq<Test>>, neg: Option<seq<Test>>, n: bool, strict: bool, ports: bool)
    requires pos.Some? || neg.Some? ==> strict ==> ports
    requires (pos.Some? ==> NoUrl(pos.value)) && (neg.Some? ==> NoUrl(neg.value))
    ensures RestShape([ListCategory(pos, neg, n, strict)], ports)
  {
  }

  lemma KindShape(kind: Kind, pos: Option<seq<string>>, neg: Option<seq<string>>, n: bool, strict: bool, ports: bool)
    requires !IsUrlKind(kind) && (pos.Some? || neg.Some? ==> strict ==> ports)
    ensures var c := ListCategory(OptTests(kind, pos), OptTests(kind, neg), n, strict);
            RestShape([c], ports) && NoMark(c.tests)
  {
    ListShape(OptTests(kind, pos), OptTests(kind, neg), n, strict, ports);
  }

  lemma RestShapeAppend(a: seq<Category>, b: seq<Category>, ports: bool)
    requires RestShape(a, ports) && RestShape(b, ports)
    ensures RestShape(a + b, ports)
  {
  }

  lemma RestIsShaped(def: RuleDef, ingress: bool)
    ensures RestShape(Rest(def, ingress), HasPorts(def))
    ensures NoMarks([MarkCategory(def)] + AddrCategories(def, ingress) + PortCategories(def, ingress))
  {
    hide RestShape, NoMark, ListCategory, AddrCategory;
    var ports := HasPorts(def);
    var (src, notSrc) := SrcAddrs(def, ingress);
    var (dst, notDst) := DstAddrs(def, ingress);
    var sport, dport := SrcPorts(def, ingress), DstPorts(def, ingress);
    KindShape(FwMark, def.mark, def.notMark, true, false, ports);
    ListShape(OptMarks(def.connmark), OptMarks(def.notConnmark), false, false, ports);
    AddrShape((src, notSrc), false, ports);
    AddrShape((dst, notDst), true, ports);
    KindShape(SrcPort, sport.0, sport.1, false, true, ports);
    KindShape(DstPort, dport.0, dport.1, false, true, ports);
    RestShapeAppend([MarkCategory(def)], [ConnmarkCategory(def)], ports);
    RestShapeAppend(AddrCategory(src, notSrc, false), AddrCategory(dst, notDst, true), ports);
    RestShapeAppend([PortCategory(SrcPort, sport)], [PortCategory(DstPort, dport)], ports);
    var marks := [MarkCategory(def), ConnmarkCategory(def)];
    assert marks == [MarkCategory(def)] + [ConnmarkCategory(def)];
    assert PortCategories(def, ingress) == [PortCategory(SrcPort, sport)] + [PortCategory(DstPort, dport)];
    RestShapeAppend(marks, AddrCategories(def, ingress), ports);
    RestShapeAppend(marks + AddrCategories(def, ingress), PortCategories(def, ingress), ports);
  }

  // ---------- single checks and flags ----------

  lemma SingleAsks(c: Category, url: bool, ports: bool, pkt: Packet, mark: Word)
    requires !c.multi && Shape(c, ports) && (if url then UrlOnly(c.tests) else NoUrl(c.tests))
    ensures AllHold(CategorySingle(c), pkt, mark) == Asks(c, url, pkt, mark)
  {
    if |c.tests| == 1 {
      var t := c.tests[0];
      assert t in c.tests && c.tests == [t];
      AllHoldOne(Check(t, c.negated), pkt, mark);
      assert SomeHolds(c.tests, pkt, mark) == TestHolds(t, pkt, mark);
    }
  }

  /** The single checks of `[first] + rest` hold when every category without a flag is satisfied. */
  ghost predicate SinglesAsk(first: Category, rest: seq<Category>, pkt: Packet, mark: Word) {
    (!first.multi ==> Asks(first, true, pkt, mark)) &&
    forall c | c in rest && !c.multi :: Asks(c, false, pkt, mark)
  }

  lemma {:induction false} SinglesHold(first: Category, rest: seq<Category>, ports: bool, pkt: Packet, mark: Word)
    requires Shape(first, ports) && UrlOnly(first.tests) && RestShape(rest, ports)
    ensures AllHold(Singles([first] + rest), pkt, mark) == SinglesAsk(first, rest, pkt, mark)
  {
    var cats := [first] + rest;
    var n := |cats| - 1;
    AllHoldAppend(CategorySingle(cats[n]), Singles(cats[..n]), pkt, mark);
    if rest == [] {
      assert cats[..n] == [];
      if !first.multi { SingleAsks(first, true, ports, pkt, mark); }
    } else {
      var front, last := rest[..|rest| - 1], rest[|rest| - 1];
      assert cats[..n] == [first] + front && cats[n] == last && last in rest;
      assert rest == front + [last];
      SinglesHold(first, front, ports, pkt, mark);
      if !last.multi { SingleAsks(last, false, ports, pkt, mark); }
    }
  }

  /** A flag that no rule ever sets, though the final match waits for it. */
  predicate Blocks(c: Category) {
    c.multi && !c.negated && c.tests == []
  }

  predicate SomeBlocks(cs: seq<Category>) {
    exists c | c in cs :: Blocks(c)
  }

  /** A category with a flag is satisfied exactly when its flag gets its final value, for a
      packet of an agreed protocol. */
  lemma FlagAsks(c: Category, i: nat, proto: ProtoChoice, ports: bool, pkt: Packet, mark: Word)
    requires c.multi && Shape(c, ports) && Allowed(proto, ports, pkt.proto)
    requires i == 0 ==> proto == JustTcp && c.tests != []
    ensures Ready(c, i, proto, pkt, mark) == (!Blocks(c) && Asks(c, i == 0, pkt, mark))
  {
  }

  /** Every flag after the URL flag gets its final value. */
  ghost predicate RestReady(cs: seq<Category>, proto: ProtoChoice, pkt: Packet, mark: Word) {
    forall c | c in cs :: Ready(c, 1, proto, pkt, mark)
  }

  lemma ReadyByPart(url: Category, rest: seq<Category>, proto: ProtoChoice, pkt: Packet, mark: Word)
    ensures AllReady([url] + rest, proto, pkt, mark) ==
            (Ready(url, 0, proto, pkt, mark) && RestReady(rest, proto, pkt, mark))
  {
    var all := [url] + rest;
    if AllReady(all, proto, pkt, mark) {
      assert Ready(all[0], 0, proto, pkt, mark);
      forall c | c in rest ensures Ready(c, 1, proto, pkt, mark) {
        var k :| 0 <= k < |rest| && rest[k] == c;
        assert Ready(all[k + 1], k + 1, proto, pkt, mark);
      }
    } else {
      var i :| 0 <= i < |all| && !Ready(all[i], i, proto, pkt, mark);
      if i > 0 { assert all[i] in rest; }
    }
  }

  /** For a packet of an agreed protocol the flags after the URL flag are ready exactly when
      their categories are satisfied. */
  lemma RestReadyAsks(rest: seq<Category>, proto: ProtoChoice, ports: bool, pkt: Packet, mark: Word)
    requires RestShape(rest, ports) && Allowed(proto, ports, pkt.proto)
    ensures RestReady(rest, proto, pkt, mark) ==
            (!SomeBlocks(rest) && forall c | c in rest && c.multi :: Asks(c, false, pkt, mark))
  {
    forall c | c in rest && c.multi
      ensures Ready(c, 1, proto, pkt, mark) == (!Blocks(c) && Asks(c, false, pkt, mark))
    {
      FlagAsks(c, 1, proto, ports, pkt, mark);
    }
  }

  lemma SingleReady(single: seq<Match>, strict: bool, proto: ProtoChoice, pkt: Packet, mark: Word)
    requires Allowed(proto, strict, pkt.proto)
    ensures Ready(Category([All(single)], false, true, strict), 1, proto, pkt, mark) == AllHold(single, pkt, mark)
  {
    var t := All(single);
    assert t in [t] && TestHolds(t, pkt, mark) == AllHold(single, pkt, mark);
  }

  lemma RestReadyAppend(a: seq<Category>, b: seq<Category>, proto: ProtoChoice, pkt: Packet, mark: Word)
    ensures RestReady(a + b, proto, pkt, mark) == (RestReady(a, proto, pkt, mark) && RestReady(b, proto, pkt, mark))
  {
    assert forall c :: c in a + b <==> c in a || c in b;
  }

  /** The flags of `[url] + rest` and of the single checks, for a packet of an agreed protocol. */
  lemma FlagsAsk(url: Category, rest: seq<Category>, base: seq<Match>, proto: ProtoChoice, strict: bool, ports: bool,
                 pkt: Packet, mark: Word)
    requires Shape(url, ports) && UrlOnly(url.tests) && RestShape(rest, ports)
    requires Allowed(proto, ports, pkt.proto) && Allowed(proto, strict, pkt.proto)
    requires url.multi ==> proto == JustTcp && url.tests != []
    ensures AllReady(WithSingle([url] + rest, Singles([url] + rest) + base, strict), proto, pkt, mark) ==
            (!SomeBlocks(rest) && Asks(url, true, pkt, mark) && AllAsk(rest, pkt, mark) && AllHold(base, pkt, mark))
  {
    hide Ready, Asks, AllHold, Singles, Shape, UrlOnly, Allowed, Blocks;
    var single := Singles([url] + rest) + base;
    var extra := if single == [] then [] else [Category([All(single)], false, true, strict)];
    assert WithSingle([url] + rest, single, strict) == [url] + (rest + extra);
    ReadyByPart(url, rest + extra, proto, pkt, mark);
    RestReadyAppend(rest, extra, proto, pkt, mark);
    RestReadyAsks(rest, proto, ports, pkt, mark);
    SinglesHold(url, rest, ports, pkt, mark);
    AllHoldAppend(Singles([url] + rest), base, pkt, mark);
    ExtraReady(single, strict, proto, pkt, mark);
    UrlReady(url, proto, ports, pkt, mark);
  }

  lemma UrlReady(url: Category, proto: ProtoChoice, ports: bool, pkt: Packet, mark: Word)
    requires Shape(url, ports) && Allowed(proto, ports, pkt.proto) &&
             (url.multi ==> proto == JustTcp && url.tests != [])
    ensures Ready(url, 0, proto, pkt, mark) == (url.multi ==> Asks(url, true, pkt, mark))
  {
    if url.multi { FlagAsks(url, 0, proto, ports, pkt, mark); }
  }

  lemma ExtraReady(single: seq<Match>, strict: bool, proto: ProtoChoice, pkt: Packet, mark: Word)
    requires Allowed(proto, strict, pkt.proto)
    ensures var extra := if single == [] then [] else [Category([All(single)], false, true, strict)];
            RestReady(extra, proto, pkt, mark) == AllHold(single, pkt, mark)
  {
    var extra := if single == [] then [] else [Category([All(single)], false, true, strict)];
    if extra != [] {
      assert extra == [extra[0]] && extra[0] in extra;
      SingleReady(single, strict, proto, pkt, mark);
    }
  }

  /** For a packet of an agreed protocol, every flag gets its final value exactly when every
      category and every other check is satisfied, and no flag is out of reach. */
  lemma ReadyAsks(def: RuleDef, ingress: bool, pkt: Packet, mark: Word)
    requires ProtoAgrees(def, pkt.proto)
    ensures AllReady(Compiled(def, ingress), RuleProto(def), pkt, mark) ==
            (!SomeBlocks(Rest(def, ingress)) && AsksAll(def, ingress, pkt, mark))
  {
    CategoriesAre(def, ingress);
    UrlShape(def, HasPorts(def));
    RestIsShaped(def, ingress);
    hide AllReady, Rest, Asks, AllHold, Singles, Shape, UrlOnly, SomeBlocks, AllAsk, BaseChecks, RestShape, HasPorts;
    FlagsAsk(UrlCategory(def), Rest(def, ingress), BaseChecks(def), RuleProto(def), StrictSingle(def), HasPorts(def),
             pkt, mark);
  }

  /** Which flags are out of reach: those of lists that are given, and empty.  An address list
      without a usable test has no flag. */
  lemma BlocksIfEmpty(def: RuleDef, ingress: bool)
    ensures SomeBlocks(Rest(def, ingress)) == EmptyLists(def, ingress)
  {
    var m, k := MarkCategory(def), ConnmarkCategory(def);
    var s, d := PortCategory(SrcPort, SrcPorts(def, ingress)), PortCategory(DstPort, DstPorts(def, ingress));
    var rest := Rest(def, ingress);
    assert m in rest && k in rest && s in rest && d in rest by {
      assert rest[0] == m && rest[1] == k && rest[|rest| - 2] == s && rest[|rest| - 1] == d;
    }
    assert forall c | c in rest :: c == m || c == k || c == s || c == d || c in AddrCategories(def, ingress);
    assert Blocks(m) == (def.mark == Some([])) && Blocks(k) == (def.connmark == Some([]));
    assert Blocks(s) == (SrcPorts(def, ingress).0 == Some([])) && Blocks(d) == (DstPorts(def, ingress).0 == Some([]));
    forall c | c in AddrCategories(def, ingress) ensures !Blocks(c) {}
  }

  // ---------- whole chains ----------

  /** The options that a chain without flags passes on. */
  function PlainOptions(def: RuleDef, target: string, options: string, p: Proto): string {
    if RuleProto(def) == Both && target == "REJECT" && options == "" && p.Tcp? then TCP_RESET else options
  }

  lemma RunPlain(def: RuleDef, single: seq<Match>, target: string, options: string, pkt: Packet, mark: Word)
    requires mark.top == 0
    ensures Ends(Run(PlainChain(def, single, target, options), pkt, mark),
                 ProtoAgrees(def, pkt.proto) && AllHold(single, pkt, mark), target,
                 PlainOptions(def, target, options, pkt.proto), mark)
  {
    var rules := PlainChain(def, single, target, options);
    AllHoldOne(ProtoIs(Tcp), pkt, mark);
    AllHoldOne(ProtoIs(Udp), pkt, mark);
    AllHoldAppend([ProtoIs(Tcp)], single, pkt, mark);
    AllHoldAppend([ProtoIs(Udp)], single, pkt, mark);
    RunOne(rules[0], pkt, mark);
    if |rules| == 2 {
      assert rules == [rules[0]] + [rules[1]];
      RunAppend([rules[0]], [rules[1]], pkt, mark);
      RunOne(rules[1], pkt, mark);
    } else {
      assert rules == [rules[0]];
    }
  }

  lemma RunTail(def: RuleDef, ingress: bool, target: string, pkt: Packet, mark: Word)
    requires mark.top == 0
    ensures Ends(Run(WhiteListTail(def, ingress, target), pkt, mark), TailAccepts(def, ingress, target, pkt), target,
                 "", mark)
  {
    var rules := WhiteListTail(def, ingress, target);
    if rules != [] {
      var open := Check(Connmark(SCRATCH, SCRATCH), true);
      var m := if pkt.proto.Tcp? && IsHttp(pkt) then Word(0xFF, mark.low) else mark;
      assert rules == [rules[0]] + ([rules[1]] + [rules[2]]);
      RunAppend([rules[0]], [rules[1]] + [rules[2]], pkt, mark);
      RunAppend([rules[1]], [rules[2]], pkt, m);
      AllHoldTwo(ProtoIs(Tcp), HTTP, pkt, mark);
      SetAll(mark, 0xFF);
      RunOne(rules[0], pkt, mark);
      assert rules[1].matches == [ProtoIs(Tcp)] + [Check(Opaque(DstPort, "80"), false), open];
      AllHoldAppend([ProtoIs(Tcp)], [Check(Opaque(DstPort, "80"), false), open], pkt, m);
      AllHoldOne(ProtoIs(Tcp), pkt, m);
      AllHoldTwo(Check(Opaque(DstPort, "80"), false), open, pkt, m);
      MaskTop(m);
      RunOne(rules[1], pkt, m);
      SetAll(m, 0);
      RunOne(rules[2], pkt, m);
    }
  }

  /** The packet reaches the target of the definition's chain. */
  ghost predicate Takes(def: RuleDef, ingress: bool, target: string, options: string, pkt: Packet, mark: Word) {
    Run(Chain(def, ingress, target, options), pkt, mark).Taken?
  }

  ghost predicate Wanted(def: RuleDef, ingress: bool, target: string, pkt: Packet, mark: Word) {
    Intended(def, ingress, pkt, mark) || TailAccepts(def, ingress, target, pkt)
  }

  // ---------- which tests see the scratch byte ----------

  /** The index of the flag whose rules look at the connection mark. */
  function ConnmarkIndex(def: RuleDef, ingress: bool): nat {
    if ConnmarkCategory(def).multi then 2 else |Categories(def, ingress)|
  }

  /** The mark that the connection mark tests find when every flag before them has got its final
      value. In a chain without flags it is the packet's own mark. */
  function SeenBy(def: RuleDef, ingress: bool, mark: Word): Word {
    if IsMulti(def, ingress) then SeenMark(Compiled(def, ingress), ConnmarkIndex(def, ingress), mark) else mark
  }

  lemma NoMarkIsLow(ts: seq<Test>)
    requires NoMark(ts)
    ensures LowTests(ts)
  {
  }

  lemma OtherCategoriesNoMark(def: RuleDef, ingress: bool)
    ensures forall i | 0 <= i < |Categories(def, ingress)| && i != 2 :: NoMark(Categories(def, ingress)[i].tests)
    ensures Categories(def, ingress)[0] == UrlCategory(def) && Categories(def, ingress)[2] == ConnmarkCategory(def)
  {
    UrlShape(def, HasPorts(def));
    RestIsShaped(def, ingress);
    CategoriesAre(def, ingress);
    var cats := Categories(def, ingress);
    var others := [MarkCategory(def)] + AddrCategories(def, ingress) + PortCategories(def, ingress);
    forall i | 0 <= i < |cats| && i != 2 ensures NoMark(cats[i].tests) {
      if i == 1 { assert cats[i] == others[0]; }
      if i > 2 { assert cats[i] == others[i - 2]; }
    }
  }

  lemma {:induction false} SinglesAreLow(cats: seq<Category>, n: nat)
    requires n <= |cats| && forall i | 0 <= i < n && !cats[i].multi :: NoMark(cats[i].tests)
    ensures forall m | m in Singles(cats[..n]) :: LowMatch(m)
  {
    if n > 0 {
      SinglesAreLow(cats, n - 1);
      assert cats[..n][..n - 1] == cats[..n - 1];
      var c := cats[n - 1];
      if CategorySingle(c) != [] { assert c.tests[0] in c.tests; }
    }
  }

  /** A positive test of the time, the application, or the packet size. */
  predicate IsBaseCheck(m: Match) {
    m.Check? && !m.negated && m.test.Opaque? &&
    (m.test.kind.TimeRange? || m.test.kind.Layer7? || m.test.kind.Ipp2p? || m.test.kind.PktLength?)
  }

  lemma BaseShape(def: RuleDef)
    ensures forall m | m in BaseChecks(def) :: IsBaseCheck(m)
  {
    forall m | m in BaseChecks(def) ensures IsBaseCheck(m) {
      assert m in TimeChecks(def) || m in OtherChecks(def);
    }
  }

  lemma SingleChecksAreLow(def: RuleDef, ingress: bool)
    requires ConnmarkCategory(def).multi
    ensures forall m | m in SingleChecks(def, ingress) :: LowMatch(m)
  {
    var cats := Categories(def, ingress);
    OtherCategoriesNoMark(def, ingress);
    SinglesAreLow(cats, |cats|);
    assert cats[..|cats|] == cats;
    BaseShape(def);
    forall m | m in SingleChecks(def, ingress) ensures LowMatch(m) {
      assert m in Singles(cats) || m in BaseChecks(def);
    }
  }

  /** Only one flag has tests that see the scratch byte. */
  lemma OneFlagSees(def: RuleDef, ingress: bool, i: nat)
    requires i < |Compiled(def, ingress)| && i != ConnmarkIndex(def, ingress)
    ensures var c := Compiled(def, ingress)[i]; !c.multi || LowTests(c.tests)
  {
    var cats := Categories(def, ingress);
    OtherCategoriesNoMark(def, ingress);
    if i < |cats| {
      assert Compiled(def, ingress)[i] == cats[i];
      if i != 2 { NoMarkIsLow(cats[i].tests); }
    } else {
      SingleChecksAreLow(def, ingress);
      assert LowTest(All(SingleChecks(def, ingress)));
    }
  }

  lemma ReadyLow(c: Category, i: nat, proto: ProtoChoice, pkt: Packet, a: Word, b: Word)
    requires (!c.multi || LowTests(c.tests)) && a.low == b.low
    ensures Ready(c, i, proto, pkt, a) == Ready(c, i, proto, pkt, b)
  {
    if c.multi { SomeHoldsLow(c.tests, pkt, a, b); }
  }

  lemma SeenIsEnough(def: RuleDef, ingress: bool, pkt: Packet, mark: Word)
    requires IsMulti(def, ingress)
    ensures var cats := Compiled(def, ingress);
            AllReadySeen(cats, |cats|, RuleProto(def), pkt, mark) ==
            AllReady(cats, RuleProto(def), pkt, SeenBy(def, ingress, mark))
  {
    hide Compiled, IsMulti, Ready, SeenMark, RuleProto, ConnmarkIndex, FlagSum;
    var cats, m := Compiled(def, ingress), SeenBy(def, ingress, mark);
    forall i | 0 <= i < |cats|
      ensures Ready(cats[i], i, RuleProto(def), pkt, SeenMark(cats, i, mark)) ==
              Ready(cats[i], i, RuleProto(def), pkt, m)
    {
      if i != ConnmarkIndex(def, ingress) {
        OneFlagSees(def, ingress, i);
        SeenLow(cats, i, mark);
        SeenLow(cats, ConnmarkIndex(def, ingress), mark);
        ReadyLow(cats[i], i, RuleProto(def), pkt, SeenMark(cats, i, mark), m);
      }
    }
  }

  lemma SeenLow(cats: seq<Category>, i: nat, mark: Word)
    requires |cats| <= 8
    ensures SeenMark(cats, i, mark).low == mark.low
  {
  }

  /** The protocol passes the match that the final rule has of its own. */
  ghost predicate Fits(def: RuleDef, ingress: bool, target: string, options: string, p: Proto) {
    IsMulti(def, ingress) ==> FinalProtoOk(RuleProto(def), target, TargetOptions(def, target, options), p)
  }

  /** Whether the rules before the white-list tail take the packet. */
  ghost predicate MainTakes(def: RuleDef, ingress: bool, target: string, options: string, pkt: Packet, mark: Word) {
    if IsMulti(def, ingress) then
      Fits(def, ingress, target, options, pkt.proto) &&
      AllReady(Compiled(def, ingress), RuleProto(def), pkt, SeenBy(def, ingress, mark))
    else ProtoAgrees(def, pkt.proto) && AllHold(SingleChecks(def, ingress), pkt, mark)
  }

  /** The options that a packet is taken with; the white-list tail has none. */
  ghost function OptionsFor(def: RuleDef, ingress: bool, target: string, options: string, pkt: Packet,
                            mark: Word): string {
    var opts := TargetOptions(def, target, options);
    if !MainTakes(def, ingress, target, options, pkt, mark) then ""
    else if IsMulti(def, ingress) then FinalOptions(RuleProto(def), target, opts, pkt.proto)
    else PlainOptions(def, target, opts, pkt.proto)
  }

  /** Every chain of every definition, on every packet with a zero scratch byte: the low 24 bits of
      the mark are kept, the scratch byte is zero again unless the target is taken, and the target
      is taken exactly by the packets that satisfy the flags, or the white-list tail. */
  lemma ChainEnds(def: RuleDef, ingress: bool, target: string, options: string, pkt: Packet, mark: Word)
    requires mark.top == 0
    ensures Ends(Run(Chain(def, ingress, target, options), pkt, mark),
                 MainTakes(def, ingress, target, options, pkt, mark) ||
                 TailAccepts(def, ingress, target, pkt), target,
                 OptionsFor(def, ingress, target, options, pkt, mark), mark)
  {
    hide Run, MultiChain, FinalOptions, PlainOptions, PlainChain, WhiteListTail, AllReady, SeenBy, AllReadySeen,
         SingleChecks, FinalProtoOk,
         IsMulti, TailAccepts, RuleProto, TargetOptions, ProtoAgrees, AllHold, Compiled;
    var opts := TargetOptions(def, target, options);
    var main := if IsMulti(def, ingress) then MultiChain(Compiled(def, ingress), RuleProto(def), target, opts)
                else PlainChain(def, SingleChecks(def, ingress), target, opts);
    if IsMulti(def, ingress) {
      UrlFirst(def, ingress);
      RunMulti(Compiled(def, ingress), RuleProto(def), target, opts, pkt, mark);
      SeenIsEnough(def, ingress, pkt, mark);
    } else {
      RunPlain(def, SingleChecks(def, ingress), target, opts, pkt, mark);
    }
    RunAppend(main, WhiteListTail(def, ingress, target), pkt, mark);
    RunTail(def, ingress, target, pkt, mark);
  }

  lemma UrlFirst(def: RuleDef, ingress: bool)
    ensures LowTests(Compiled(def, ingress)[0].tests)
  {
    OtherCategoriesNoMark(def, ingress);
    assert Compiled(def, ingress)[0] == Categories(def, ingress)[0];
    NoMarkIsLow(UrlCategory(def).tests);
  }

  lemma NoFlagRules(def: RuleDef, ingress: bool)
    requires !IsMulti(def, ingress)
    ensures !UrlCategory(def).multi && forall c | c in Rest(def, ingress) && c.multi :: c.tests == []
  {
    CategoriesAre(def, ingress);
    var cats := Categories(def, ingress);
    NoFlagRule(cats, RuleProto(def));
    assert cats[0] == UrlCategory(def) && cats[0] in cats;
    forall c | c in Rest(def, ingress) && c.multi ensures c.tests == [] {
      assert c in cats;
    }
  }

  lemma {:induction false} NoFlagRule(cats: seq<Category>, proto: ProtoChoice)
    requires |cats| <= 8 && FlagRules(cats, proto) == []
    ensures forall c | c in cats && c.tests != [] :: !c.multi
  {
    hide TestRules, ListRules, CategoryRules;
    if cats != [] {
      var n := |cats| - 1;
      NoFlagRule(cats[..n], proto);
      if cats[n].multi && cats[n].tests != [] { HasRules(cats[n], n, proto); }
    }
  }

  lemma HasRules(c: Category, i: nat, proto: ProtoChoice)
    requires i < 8 && c.multi && c.tests != []
    ensures |CategoryRules(c, i, proto)| > 0
  {
    assert |TestRules(c.tests[|c.tests| - 1], i, c.negated, proto, c.strict)| > 0;
  }

  /** A chain without flags checks everything in one rule, except that it does not look at lists
      that are given, and empty. */
  lemma SinglesAreAll(def: RuleDef, ingress: bool, pkt: Packet, mark: Word)
    requires !IsMulti(def, ingress)
    ensures AllHold(SingleChecks(def, ingress), pkt, mark) == AsksAll(def, ingress, pkt, mark)
  {
    CategoriesAre(def, ingress);
    UrlShape(def, HasPorts(def));
    RestIsShaped(def, ingress);
    NoFlagRules(def, ingress);
    SinglesHold(UrlCategory(def), Rest(def, ingress), HasPorts(def), pkt, mark);
    AllHoldAppend(Singles(Categories(def, ingress)), BaseChecks(def), pkt, mark);
    assert forall c | c in Rest(def, ingress) && c.multi :: Asks(c, false, pkt, mark);
  }

  /** A chain with flags takes nothing if a list is given and empty. */
  ghost predicate Blocked(def: RuleDef, ingress: bool) {
    IsMulti(def, ingress) && EmptyLists(def, ingress)
  }

  /** What the chain takes of the packets of an agreed protocol. */
  lemma AgreedTakes(def: RuleDef, ingress: bool, target: string, options: string, pkt: Packet, mark: Word)
    requires ProtoAgrees(def, pkt.proto)
    ensures MainTakes(def, ingress, target, options, pkt, mark) ==
            (Fits(def, ingress, target, options, pkt.proto) && !Blocked(def, ingress) &&
             AsksAll(def, ingress, pkt, SeenBy(def, ingress, mark)))
  {
    hide ProtoAgrees, AllReady, AsksAll, FinalProtoOk, Compiled, SingleChecks, AllHold, RuleProto, SeenMark,
         EmptyLists, IsMulti;
    if IsMulti(def, ingress) {
      ReadyAsks(def, ingress, pkt, SeenBy(def, ingress, mark));
      BlocksIfEmpty(def, ingress);
    } else {
      SinglesAreAll(def, ingress, pkt, mark);
    }
  }
}

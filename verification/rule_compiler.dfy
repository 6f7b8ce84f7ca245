/** The firewall rule compiler: one rule definition, a conjunction of categories each holding
    a list of alternative tests, becomes one linear chain that computes on the scratch byte. */
module RuleCompiler {
  import opened Wrappers
  import opened Netfilter

  datatype ProtoChoice = Both | JustTcp | JustUdp

  datatype Addrs = Addrs(ips: seq<string>, ranges: seq<string>, macs: seq<string>)

  datatype Mark = Mark(value: Word, mask: Word)

  datatype UrlLists = UrlLists(
    contains: seq<string>, regex: seq<string>, exact: seq<string>,
    domainContains: seq<string>, domainRegex: seq<string>, domainExact: seq<string>)

  /** A rule definition after its options are parsed; an absent option is None (an absent
      URL list is empty). */
  datatype RuleDef = RuleDef(
    weeklyRanges: Option<string>, hours: Option<string>, weekdays: Option<string>,
    layer7: Option<string>, ipp2p: Option<string>, minSize: Option<string>, maxSize: Option<string>,
    proto: ProtoChoice,
    urls: UrlLists, notUrls: UrlLists,
    mark: Option<seq<string>>, notMark: Option<seq<string>>,
    connmark: Option<seq<Mark>>, notConnmark: Option<seq<Mark>>,
    localAddr: Option<Addrs>, notLocalAddr: Option<Addrs>,
    remoteAddr: Option<Addrs>, notRemoteAddr: Option<Addrs>,
    localPort: Option<seq<string>>, notLocalPort: Option<seq<string>>,
    remotePort: Option<seq<string>>, notRemotePort: Option<seq<string>>)

  /** One flag of the scratch byte: its tests, whether they are negated, whether they are
      compiled to rules of their own, and whether those rules must name a protocol. */
  datatype Category = Category(tests: seq<Test>, negated: bool, multi: bool, strict: bool)

  function Tests(kind: Kind, args: seq<string>): (ts: seq<Test>)
    ensures |ts| == |args| && forall i | 0 <= i < |ts| :: ts[i] == Opaque(kind, args[i])
  {
    seq(|args|, i requires 0 <= i < |args| => Opaque(kind, args[i]))
  }

  function OptTests(kind: Kind, args: Option<seq<string>>): Option<seq<Test>> {
    if args.None? then None else Some(Tests(kind, args.value))
  }

  function OptMarks(marks: Option<seq<Mark>>): Option<seq<Test>> {
    if marks.None? then None else
      var ms := marks.value;
      Some(seq(|ms|, i requires 0 <= i < |ms| => Connmark(ms[i].value, ms[i].mask)))
  }

  /** The tests of each of the six URL lists. */
  function UrlParts(u: UrlLists): seq<seq<Test>> {
    [Tests(UrlContains, u.contains), Tests(UrlRegex, u.regex), Tests(UrlExact, u.exact),
     Tests(UrlDomainContains, u.domainContains), Tests(UrlDomainRegex, u.domainRegex),
     Tests(UrlDomainExact, u.domainExact)]
  }

  /** The usable tests of an address list: a destination has no MAC match. */
  function AddrParts(a: Addrs, dst: bool): seq<seq<Test>> {
    if dst then [Tests(DstIp, a.ips), Tests(DstRange, a.ranges)]
    else [Tests(SrcIp, a.ips), Tests(SrcRange, a.ranges), Tests(SrcMac, a.macs)]
  }

  function Concat(parts: seq<seq<Test>>): seq<Test> {
    if parts == [] then [] else Concat(parts[..|parts| - 1]) + parts[|parts| - 1]
  }

  // ---------- what a definition amounts to ----------

  /** Positive URL lists hide negated ones. */
  function UrlCategory(def: RuleDef): Category {
    var pos := Concat(UrlParts(def.urls));
    var tests := if pos != [] then pos else Concat(UrlParts(def.notUrls));
    Category(tests, pos == [], |tests| > 1, false)
  }

  function ListCategory(pos: Option<seq<Test>>, neg: Option<seq<Test>>, negatedIsMulti: bool, strict: bool): Category {
    var list := if pos.Some? then pos else neg;
    var negated := pos.None? && neg.Some?;
    Category(if list.Some? then list.value else [], negated,
             list.Some? && (|list.value| != 1 || (negatedIsMulti && negated)), strict)
  }

  function AddrCategory(pos: Option<Addrs>, neg: Option<Addrs>, dst: bool): seq<Category> {
    var addrs := if pos.Some? then pos else neg;
    if addrs.None? then [] else
      var tests := Concat(AddrParts(addrs.value, dst));
      [Category(tests, pos.None?, |tests| > 1, false)]
  }

  /** A negated fwmark cannot be a single check. */
  function MarkCategory(def: RuleDef): Category {
    ListCategory(OptTests(FwMark, def.mark), OptTests(FwMark, def.notMark), true, false)
  }

  function ConnmarkCategory(def: RuleDef): Category {
    ListCategory(OptMarks(def.connmark), OptMarks(def.notConnmark), false, false)
  }

  function HeadCategories(def: RuleDef): seq<Category> {
    [UrlCategory(def), MarkCategory(def),
     ConnmarkCategory(def)]
  }

  /** For ingress the source is remote; for egress it is local. */
  function SrcAddrs(def: RuleDef, ingress: bool): (Option<Addrs>, Option<Addrs>) {
    if ingress then (def.remoteAddr, def.notRemoteAddr) else (def.localAddr, def.notLocalAddr)
  }

  function DstAddrs(def: RuleDef, ingress: bool): (Option<Addrs>, Option<Addrs>) {
    if ingress then (def.localAddr, def.notLocalAddr) else (def.remoteAddr, def.notRemoteAddr)
  }

  function SrcPorts(def: RuleDef, ingress: bool): (Option<seq<string>>, Option<seq<string>>) {
    if ingress then (def.remotePort, def.notRemotePort) else (def.localPort, def.notLocalPort)
  }

  function DstPorts(def: RuleDef, ingress: bool): (Option<seq<string>>, Option<seq<string>>) {
    if ingress then (def.localPort, def.notLocalPort) else (def.remotePort, def.notRemotePort)
  }

  function AddrCategories(def: RuleDef, ingress: bool): (cats: seq<Category>)
    ensures |cats| <= 2
  {
    var (src, notSrc) := SrcAddrs(def, ingress);
    var (dst, notDst) := DstAddrs(def, ingress);
    AddrCategory(src, notSrc, false) + AddrCategory(dst, notDst, true)
  }

  function PortCategory(kind: Kind, ports: (Option<seq<string>>, Option<seq<string>>)): Category {
    ListCategory(OptTests(kind, ports.0), OptTests(kind, ports.1), false, true)
  }

  function PortCategories(def: RuleDef, ingress: bool): seq<Category> {
    [PortCategory(SrcPort, SrcPorts(def, ingress)), PortCategory(DstPort, DstPorts(def, ingress))]
  }

  function Categories(def: RuleDef, ingress: bool): (cats: seq<Category>)
    ensures 5 <= |cats| <= 7
  {
    HeadCategories(def) + AddrCategories(def, ingress) + PortCategories(def, ingress)
  }

  /** Matching on a URL forces TCP. */
  function RuleProto(def: RuleDef): ProtoChoice {
    if UrlCategory(def).tests != [] then JustTcp else def.proto
  }

  function HasPorts(def: RuleDef): bool {
    def.localPort.Some? || def.notLocalPort.Some? || def.remotePort.Some? || def.notRemotePort.Some?
  }

  function TimeChecks(def: RuleDef): seq<Match> {
    if def.weeklyRanges.Some? then [Check(Opaque(TimeRange, "--weekly_ranges " + def.weeklyRanges.value), false)]
    else if def.hours.Some? && def.weekdays.Some? then
      [Check(Opaque(TimeRange, "--hours " + def.hours.value + " --weekdays " + def.weekdays.value), false)]
    else if def.hours.Some? then [Check(Opaque(TimeRange, "--hours " + def.hours.value), false)]
    else if def.weekdays.Some? then [Check(Opaque(TimeRange, "--weekdays " + def.weekdays.value), false)]
    else []
  }

  function OtherChecks(def: RuleDef): seq<Match> {
    (if def.layer7.Some? then [Check(Opaque(Layer7, def.layer7.value), false)] else []) +
    (if def.ipp2p.Some? then [Check(Opaque(Ipp2p, def.ipp2p.value), false)] else []) +
    (if def.minSize.Some? && def.maxSize.Some? then
       [Check(Opaque(PktLength, def.minSize.value + ":" + def.maxSize.value), false)] else [])
  }

  function BaseChecks(def: RuleDef): seq<Match> {
    TimeChecks(def) + OtherChecks(def)
  }

  // ---------- the chain a definition compiles to ----------

  function FlagAction(i: nat, negated: bool): Action
    requires i < 8
  {
    SetMark(if negated then ZERO else ScratchBit(i), ScratchBit(i))
  }

  function TestRules(t: Test, i: nat, negated: bool, proto: ProtoChoice, requiresProto: bool): seq<Rule>
    requires i < 8
  {
    var common := Check(t, false);
    var action := FlagAction(i, negated);
    match proto
    case Both =>
      if requiresProto then [Rule([ProtoIs(Tcp), common], action), Rule([ProtoIs(Udp), common], action)]
      else [Rule([common], action)]
    case JustTcp => [Rule([ProtoIs(Tcp), common], action)]
    case JustUdp => [Rule([ProtoIs(Udp), common], action)]
  }

  function ListRules(ts: seq<Test>, i: nat, negated: bool, proto: ProtoChoice, requiresProto: bool): seq<Rule>
    requires i < 8
  {
    if ts == [] then [] else
      ListRules(ts[..|ts| - 1], i, negated, proto, requiresProto) +
      TestRules(ts[|ts| - 1], i, negated, proto, requiresProto)
  }

  function CategoryRules(c: Category, i: nat, proto: ProtoChoice): seq<Rule>
    requires i < 8
  {
    if c.multi then ListRules(c.tests, i, c.negated, proto, c.strict) else []
  }

  function FlagRules(cats: seq<Category>, proto: ProtoChoice): seq<Rule>
    requires |cats| <= 8
  {
    if cats == [] then [] else
      FlagRules(cats[..|cats| - 1], proto) + CategoryRules(cats[|cats| - 1], |cats| - 1, proto)
  }

  function CategorySingle(c: Category): seq<Match> {
    if !c.multi && |c.tests| == 1 then [Check(c.tests[0], c.negated)] else []
  }

  function Singles(cats: seq<Category>): seq<Match> {
    if cats == [] then [] else CategorySingle(cats[|cats| - 1]) + Singles(cats[..|cats| - 1])
  }

  function SingleChecks(def: RuleDef, ingress: bool): seq<Match> {
    Singles(Categories(def, ingress)) + BaseChecks(def)
  }

  predicate IsMulti(def: RuleDef, ingress: bool) {
    FlagRules(Categories(def, ingress), RuleProto(def)) != []
  }

  /** The single checks, if there are any, get a flag of their own. */
  function WithSingle(cats: seq<Category>, single: seq<Match>, strict: bool): seq<Category> {
    if single == [] then cats else cats + [Category([All(single)], false, true, strict)]
  }

  /** A rule that does not name a protocol would be wrong for the single checks. */
  function StrictSingle(def: RuleDef): bool {
    RuleProto(def) != Both || HasPorts(def)
  }

  function Compiled(def: RuleDef, ingress: bool): (cats: seq<Category>)
    ensures 5 <= |cats| <= 8
  {
    WithSingle(Categories(def, ingress), SingleChecks(def, ingress), StrictSingle(def))
  }

  /** The sum of the bits of the flags that are on. */
  function FlagSum(flags: seq<bool>): Word
    requires |flags| <= 8
  {
    if flags == [] then ZERO else
      var n := |flags| - 1;
      AddBit(FlagSum(flags[..n]), if flags[n] then ScratchBit(n) else ZERO)
  }

  function FinalFlags(cats: seq<Category>): (fs: seq<bool>)
    ensures |fs| == |cats| && forall i | 0 <= i < |fs| :: fs[i] == cats[i].multi
  {
    seq(|cats|, i requires 0 <= i < |cats| => cats[i].multi)
  }

  /** Flags preset to one: the negated categories, except the URL one, which only an HTTP
      request presets. */
  function PresetFlags(cats: seq<Category>): (fs: seq<bool>)
    ensures |fs| == |cats| && forall i | 0 <= i < |fs| :: fs[i] == (i != 0 && cats[i].negated && cats[i].multi)
  {
    seq(|cats|, i requires 0 <= i < |cats| => i != 0 && cats[i].negated && cats[i].multi)
  }

  predicate FoundAt(s: string, part: string, i: nat) {
    i + |part| <= |s| && s[i..i + |part|] == part
  }

  predicate Contains(s: string, part: string) {
    exists i: nat | i <= |s| :: FoundAt(s, part, i)
  }

  const TCP_RESET := " --reject-with tcp-reset "

  function TargetOptions(def: RuleDef, target: string, options: string): string {
    if options == "" && RuleProto(def) == JustTcp && target == "REJECT" then TCP_RESET else options
  }

  const HTTP := Check(Opaque(UrlContains, "http"), false)

  function PresetRules(cats: seq<Category>): seq<Rule>
    requires 0 < |cats| <= 8
  {
    var main := FlagSum(PresetFlags(cats));
    (if main.top != 0 then [Rule([], SetMark(main, SCRATCH))] else []) +
    (if cats[0].negated && cats[0].multi then
       [Rule([ProtoIs(Tcp), HTTP], SetMark(ScratchBit(0), ScratchBit(0)))] else [])
  }

  function FinalRules(want: Word, proto: ProtoChoice, target: string, options: string): seq<Rule> {
    var ready := Check(Connmark(want, SCRATCH), false);
    (if target == "REJECT" && options == "" && proto != Both then
       [Rule([ProtoIs(Tcp), ready], Jump("REJECT", TCP_RESET)), Rule([ready], Jump("REJECT", ""))]
     else
       [Rule((if Contains(options, "tcp-reset") then [ProtoIs(Tcp)] else []) + [ready], Jump(target, options))])
    + [Rule([], SetMark(ZERO, SCRATCH))]
  }

  function MultiChain(cats: seq<Category>, proto: ProtoChoice, target: string, options: string): seq<Rule>
    requires 0 < |cats| <= 8
  {
    PresetRules(cats) + FlagRules(cats, proto) + FinalRules(FlagSum(FinalFlags(cats)), proto, target, options)
  }

  function PlainChain(def: RuleDef, single: seq<Match>, target: string, options: string): seq<Rule> {
    var reset := target == "REJECT" && options == "";
    var go := Jump(target, options);
    match RuleProto(def)
    case Both =>
      if !HasPorts(def) then
        (if reset then [Rule([ProtoIs(Tcp)] + single, Jump("REJECT", TCP_RESET))] else []) + [Rule(single, go)]
      else
        [Rule([ProtoIs(Tcp)] + single, if reset then Jump("REJECT", TCP_RESET) else go),
         Rule([ProtoIs(Udp)] + single, go)]
    case JustTcp => [Rule([ProtoIs(Tcp)] + single, go)]
    case JustUdp => [Rule([ProtoIs(Udp)] + single, go)]
  }

  /** White-listing a URL also lets the rest of an HTTP connection through. */
  function WhiteListTail(def: RuleDef, ingress: bool, target: string): seq<Rule> {
    if UrlCategory(def).tests != [] && target == "ACCEPT" && !ingress then
      [Rule([ProtoIs(Tcp), HTTP], SetMark(SCRATCH, SCRATCH)),
       Rule([ProtoIs(Tcp), Check(Opaque(DstPort, "80"), false), Check(Connmark(SCRATCH, SCRATCH), true)],
            Jump("ACCEPT", "")),
       Rule([], SetMark(ZERO, SCRATCH))]
    else []
  }

  function Chain(def: RuleDef, ingress: bool, target: string, options: string): seq<Rule> {
    var opts := TargetOptions(def, target, options);
    (if IsMulti(def, ingress) then MultiChain(Compiled(def, ingress), RuleProto(def), target, opts)
     else PlainChain(def, SingleChecks(def, ingress), target, opts)) +
    WhiteListTail(def, ingress, target)
  }
}

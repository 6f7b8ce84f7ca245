/** The exact condition in the cases that matter: for the usual definitions it is that some rule
    checks the protocol, and for three kinds of unusual ones compiling fails in its own way. */
module RuleCases {
  import opened Wrappers
  import opened Netfilter
  import opened RuleCompiler
  import opened RuleMeaning
  import opened RuleFaithful
  import opened RuleExact

  ghost predicate LowMarks(ms: Option<seq<Mark>>) {
    ms.Some? ==> forall m | m in ms.value :: m.mask.top == 0
  }

  /** No connection mark test looks at the scratch byte. */
  ghost predicate MasksAreLow(def: RuleDef) {
    LowMarks(def.connmark) && LowMarks(def.notConnmark)
  }

  /** A TCP-only target option is given only for TCP. */
  ghost predicate OptionsFit(def: RuleDef, options: string) {
    Contains(options, "tcp-reset") ==> RuleProto(def) == JustTcp
  }

  /** Every list has a test to offer, no mask reaches the scratch byte, and the options fit. */
  ghost predicate Usual(def: RuleDef, ingress: bool, options: string) {
    !Hopeless(def, ingress) && MasksAreLow(def) && OptionsFit(def, options)
  }

  /** Some rule of the chain keeps out the packets of other protocols: the flags are not the
      only thing between such a packet and the target. */
  ghost predicate Checked(def: RuleDef, ingress: bool, target: string, options: string) {
    !IsMulti(def, ingress) ||
    (RuleProto(def) == Both && !HasPorts(def)) ||
    (RuleProto(def) == JustTcp && Contains(TargetOptions(def, target, options), "tcp-reset")) ||
    Guarded(def, ingress)
  }

  /** No connection mark with a zero scratch byte meets the definition's condition. */
  ghost predicate Unmarkable(def: RuleDef) {
    forall mark: Word | mark.top == 0 :: !MarkMet(def, mark)
  }

  lemma LowMasksSeeNothing(def: RuleDef, a: Word, b: Word)
    requires MasksAreLow(def) && a.low == b.low
    ensures MarkMet(def, a) == MarkMet(def, b)
  {
    if def.connmark.Some? {
      forall m | m in def.connmark.value
        ensures And(a, m.mask) == And(b, m.mask)
      {
        MaskedTop(a.top, b.top, m.mask.top);
      }
    } else if def.notConnmark.Some? {
      forall m | m in def.notConnmark.value
        ensures And(a, m.mask) == And(b, m.mask)
      {
        MaskedTop(a.top, b.top, m.mask.top);
      }
    }
  }

  lemma SeenByLow(def: RuleDef, ingress: bool, mark: Word)
    ensures SeenBy(def, ingress, mark).low == mark.low
  {
  }

  lemma UsualLets(def: RuleDef, ingress: bool, target: string, options: string, p: Proto, mark: Word)
    requires Usual(def, ingress, options)
    ensures ProtoAgrees(def, p) ==> Lets(def, ingress, target, options, p, mark) == Asked(def, ingress, mark)
    ensures !ProtoAgrees(def, p) ==>
              (LetsStranger(def, ingress, target, options, p, mark) ==
               (!Checked(def, ingress, target, options) && (RuleProto(def) == Both ==> MarkMet(def, mark))))
  {
    hide MarkMet, SeenBy, MasksAreLow, RuleProto, IsMulti, Guarded, EmptyAddrs, HasPorts, Contains, EmptyLists;
    ResetOptions();
    SeenByLow(def, ingress, mark);
    LowMasksSeeNothing(def, SeenBy(def, ingress, mark), mark);
  }

  lemma OtherProtocol(def: RuleDef, ingress: bool, target: string, options: string)
    requires !Checked(def, ingress, target, options)
    ensures !ProtoAgrees(def, OtherProto)
  {
  }

  /** For the usual definitions: compiling preserves meaning exactly if some rule checks the
      protocol, or the rule can never match because no connection mark meets its condition. */
  lemma UsuallyFaithful(def: RuleDef, ingress: bool, target: string, options: string)
    requires Usual(def, ingress, options)
    ensures Faithful(def, ingress, target, options) <==>
            Checked(def, ingress, target, options) || (RuleProto(def) == Both && Unmarkable(def))
  {
    hide Faithful, Lets, LetsStranger, Asked, Checked, ProtoAgrees, RuleProto, MarkMet, Usual, UrlsMeetable;
    FaithfulExactly(def, ingress, target, options);
    forall p: Proto, mark: Word
      ensures ProtoAgrees(def, p) ==> Lets(def, ingress, target, options, p, mark) == Asked(def, ingress, mark)
      ensures !ProtoAgrees(def, p) ==>
                (LetsStranger(def, ingress, target, options, p, mark) ==
                 (!Checked(def, ingress, target, options) && (RuleProto(def) == Both ==> MarkMet(def, mark))))
    {
      UsualLets(def, ingress, target, options, p, mark);
    }
    if CompilesRight(def, ingress, target, options) && !Checked(def, ingress, target, options) {
      OtherProtocol(def, ingress, target, options);
      forall mark: Word | mark.top == 0 ensures RuleProto(def) == Both && !MarkMet(def, mark) {
        assert !LetsStranger(def, ingress, target, options, OtherProto, mark);
      }
      assert ZERO.top == 0;
    }
  }

  // ---------- a full mask in a connection mark test ----------

  lemma AllBits(top: bv8)
    ensures top & 0xFF == top
  {
  }

  lemma {:induction false} SomeFlag(cats: seq<Category>, proto: ProtoChoice) returns (j: nat)
    requires |cats| <= 8 && FlagRules(cats, proto) != []
    ensures j < |cats| && cats[j].multi
  {
    var n := |cats| - 1;
    if cats[n].multi { j := n; } else { j := SomeFlag(cats[..n], proto); }
  }

  lemma SumIsNotZero(flags: seq<bool>, j: nat)
    requires j < |flags| <= 8 && flags[j]
    ensures FlagSum(flags).top != 0
  {
    FlagSumFlags(flags);
    NoFlag(j);
    assert Flag(FlagSum(flags), j);
  }

  /** A single connection mark test is checked last, beside the flags that are on by then. */
  lemma FullMaskFails(def: RuleDef, ingress: bool, v: Word, m: Word, mark: Word)
    requires def.connmark == Some([Mark(v, m)]) && v.top == 0 && m.top == 0xFF && IsMulti(def, ingress)
    ensures !MarkMet(def, SeenBy(def, ingress, mark))
  {
    hide FlagRules, FlagSum, Singles, BaseChecks;
    var cats, all := Categories(def, ingress), Compiled(def, ingress);
    var j := SomeFlag(cats, RuleProto(def));
    assert !ConnmarkCategory(def).multi;
    assert all[j] == cats[j];
    SumIsNotZero(SeenFlags(all, |cats|), j);
    AllBits(SeenBy(def, ingress, mark).top);
  }

  lemma SingleMarkGuards(def: RuleDef, ingress: bool, v: Word, m: Word, p: Proto)
    requires def.connmark == Some([Mark(v, m)]) && !ProtoAgrees(def, p)
    ensures Guarded(def, ingress)
  {
    var cats := Categories(def, ingress);
    assert cats[2] == ConnmarkCategory(def) && OptMarks(def.connmark).value == [Connmark(v, m)];
    SingleMember(cats, 2);
    SinglesGuard(def, ingress);
  }

  ghost predicate NothingIntended(def: RuleDef, ingress: bool) {
    forall pkt: Packet, mark: Word | mark.top == 0 :: !Intended(def, ingress, pkt, mark)
  }

  lemma FullMaskTakes(def: RuleDef, ingress: bool, target: string, options: string, v: Word, m: Word, pkt: Packet,
                      mark: Word)
    requires def.connmark == Some([Mark(v, m)]) && v.top == 0 && m.top == 0xFF && IsMulti(def, ingress) && mark.top == 0
    ensures Takes(def, ingress, target, options, pkt, mark) == TailAccepts(def, ingress, target, pkt)
  {
    hide Takes, MainTakes, TailAccepts, AsksBut, MarkMet, SeenBy, ProtoAgrees, IsMulti, Guarded;
    TakesIs(def, ingress, target, options, pkt, mark);
    if ProtoAgrees(def, pkt.proto) {
      AgreedCase(def, ingress, target, options, pkt, mark);
      FullMaskFails(def, ingress, v, m, mark);
    } else {
      StrangerTakes(def, ingress, target, options, pkt, mark);
      SingleMarkGuards(def, ingress, v, m, pkt.proto);
    }
  }

  /** Whatever is intended, the model packet of some protocol is intended too. */
  lemma ModelIntended(def: RuleDef, ingress: bool, pkt: Packet, mark: Word)
    requires Intended(def, ingress, pkt, mark)
    ensures Intended(def, ingress, Model(def, ingress, pkt.proto), mark)
    ensures IsHttp(Model(def, ingress, pkt.proto))
  {
    hide Intended, AsksBut, Asked, ProtoAgrees, UrlsMeetable, Suits;
    if !ProtoAgrees(def, pkt.proto) { UnwantedProtocol(def, ingress, pkt, mark); }
    ModelMeets(def, ingress, pkt.proto);
    AgreedCase(def, ingress, "", "", pkt, mark);
    AgreedCase(def, ingress, "", "", Model(def, ingress, pkt.proto), mark);
  }

  lemma FaithfulAt(def: RuleDef, ingress: bool, target: string, options: string, pkt: Packet, mark: Word)
    requires Faithful(def, ingress, target, options) && mark.top == 0
    ensures Takes(def, ingress, target, options, pkt, mark) == Wanted(def, ingress, target, pkt, mark)
  {
  }

  lemma AllUnintended(def: RuleDef, ingress: bool)
    requires forall pkt: Packet, mark: Word | mark.top == 0 :: !Intended(def, ingress, pkt, mark)
    ensures NothingIntended(def, ingress)
  {
  }

  lemma NothingWanted(def: RuleDef, ingress: bool, target: string, options: string)
    requires NothingIntended(def, ingress)
    requires forall pkt: Packet, mark: Word | mark.top == 0 ::
               Takes(def, ingress, target, options, pkt, mark) == TailAccepts(def, ingress, target, pkt)
    ensures Faithful(def, ingress, target, options)
  {
    hide Takes, Intended, TailAccepts;
  }

  /** A protocol that the definition is about. */
  function ItsProto(def: RuleDef): Proto {
    if RuleProto(def) == JustUdp then Udp else Tcp
  }

  /** When a definition asks for no packet at all: its URL list cannot be met, some list has no test to
      offer, or no connection mark will do. */
  lemma NothingIntendedExactly(def: RuleDef, ingress: bool)
    ensures NothingIntended(def, ingress) <==>
            !UrlsMeetable(def) || forall mark: Word | mark.top == 0 :: !Asked(def, ingress, mark)
  {
    hide Intended, AsksBut, Asked, UrlsMeetable, Suits, RuleProto, UrlCategory;
    var p := ItsProto(def);
    assert ProtoAgrees(def, p);
    ModelMeets(def, ingress, p);
    hide ProtoAgrees;
    forall mark: Word | mark.top == 0
      ensures Intended(def, ingress, Model(def, ingress, p), mark) == (UrlsMeetable(def) && Asked(def, ingress, mark))
    {
      AgreedCase(def, ingress, "", "", Model(def, ingress, p), mark);
    }
    forall pkt: Packet, mark: Word | mark.top == 0
      ensures Intended(def, ingress, pkt, mark) ==> UrlsMeetable(def) && Asked(def, ingress, mark)
    {
      if ProtoAgrees(def, pkt.proto) {
        AgreedCase(def, ingress, "", "", pkt, mark);
      } else {
        UnwantedProtocol(def, ingress, pkt, mark);
      }
    }
  }

  lemma NothingMarked(def: RuleDef, ingress: bool, v: Word, m: Word)
    requires def.connmark == Some([Mark(v, m)]) && v.top == 0
    ensures NothingIntended(def, ingress) <==> Hopeless(def, ingress) || !UrlsMeetable(def) || And(v, m) != v
  {
    hide Hopeless, UrlsMeetable, NothingIntended;
    NothingIntendedExactly(def, ingress);
    assert Mark(v, m) in def.connmark.value;
    if And(v, m) == v {
      assert MarkMet(def, v);
    } else {
      forall mark: Word ensures !MarkMet(def, mark) { MaskTwice(mark, m); }
    }
  }

  lemma MaskTwice(mark: Word, m: Word)
    ensures And(And(mark, m), m) == And(mark, m)
  {
    TopTwice(mark.top, m.top);
    LowTwice(mark.low, m.low);
  }

  lemma TopTwice(a: bv8, b: bv8)
    ensures (a & b) & b == a & b
  {
  }

  lemma LowTwice(a: bv24, b: bv24)
    ensures (a & b) & b == a & b
  {
  }

  /** In a chain without flags a test of the connection mark sees the mark as it came. */
  lemma PlainIsFaithful(def: RuleDef, ingress: bool, target: string, options: string)
    requires !IsMulti(def, ingress) && !Hopeless(def, ingress)
    ensures Faithful(def, ingress, target, options)
  {
    hide Faithful, MarkMet, ProtoAgrees, UrlsMeetable, IsMulti, Guarded;
    FaithfulExactly(def, ingress, target, options);
  }

  /** The source lets a connection mark be tested with its full mask, though the scratch byte is
      part of the mark.  Beside any flag such a rule takes nothing of its own, so it is right
      exactly if it has no flags, or asks for nothing. */
  lemma UnmaskedMarkIsMissed(def: RuleDef, ingress: bool, target: string, options: string, v: Word, m: Word)
    requires def.connmark == Some([Mark(v, m)]) && v.top == 0 && m.top == 0xFF
    requires IsMulti(def, ingress) || !Hopeless(def, ingress)
    ensures IsMulti(def, ingress) ==>
              forall pkt: Packet, mark: Word | mark.top == 0 ::
                Takes(def, ingress, target, options, pkt, mark) == TailAccepts(def, ingress, target, pkt)
    ensures Faithful(def, ingress, target, options) <==>
            !IsMulti(def, ingress) || Hopeless(def, ingress) || !UrlsMeetable(def) || And(v, m) != v
  {
    hide Takes, Intended, UrlCategory, IsMulti, Suits, Hopeless, NothingIntended, UrlsMeetable, And;
    NothingMarked(def, ingress, v, m);
    if !IsMulti(def, ingress) {
      PlainIsFaithful(def, ingress, target, options);
    } else {
      forall pkt: Packet, mark: Word | mark.top == 0
        ensures Takes(def, ingress, target, options, pkt, mark) == TailAccepts(def, ingress, target, pkt)
      {
        FullMaskTakes(def, ingress, target, options, v, m, pkt, mark);
      }
      if Faithful(def, ingress, target, options) {
        forall pkt: Packet, mark: Word | mark.top == 0 ensures !Intended(def, ingress, pkt, mark) {
          if Intended(def, ingress, pkt, mark) {
            ModelIntended(def, ingress, pkt, mark);
            FaithfulAt(def, ingress, target, options, Model(def, ingress, pkt.proto), mark);
          }
        }
        AllUnintended(def, ingress);
      } else if NothingIntended(def, ingress) {
        NothingWanted(def, ingress, target, options);
      }
    }
  }

  // ---------- an address list without a usable test ----------

  /** A destination given by MAC alone asks for something no packet has, and the chain ignores it,
      with flags or without. It is right only if the rest of the rule takes nothing. */
  lemma UselessAddressIsIgnored(def: RuleDef, ingress: bool, target: string, options: string)
    requires EmptyAddrs(DstAddrs(def, ingress).0, true)
    ensures NothingIntended(def, ingress)
    ensures AddrCategory(DstAddrs(def, ingress).0, DstAddrs(def, ingress).1, true) ==
            [Category([], false, false, false)]
    ensures Faithful(def, ingress, target, options) <==>
            forall p: Proto, mark: Word | mark.top == 0 ::
              if ProtoAgrees(def, p) then UrlsMeetable(def) ==> !Lets(def, ingress, target, options, p, mark)
              else !LetsStranger(def, ingress, target, options, p, mark)
  {
    hide Faithful, Lets, LetsStranger, ProtoAgrees, UrlsMeetable, Intended;
    FaithfulExactly(def, ingress, target, options);
    forall pkt: Packet, mark: Word | mark.top == 0 ensures !Intended(def, ingress, pkt, mark) {
      IntendedByCategory(def, ingress, pkt, mark);
    }
  }

  // ---------- a TCP reset for another protocol ----------

  /** The final rule of a chain with flags is for TCP if the options speak of a TCP reset: a rule for
      UDP then takes nothing that is wanted, and lets TCP packets through unless a flag stops them. */
  lemma ResetOfUdp(def: RuleDef, ingress: bool, target: string, options: string)
    requires IsMulti(def, ingress) && RuleProto(def) == JustUdp && Contains(options, "tcp-reset")
    ensures Faithful(def, ingress, target, options) <==>
            Guarded(def, ingress) && forall mark: Word | mark.top == 0 :: !Asked(def, ingress, mark)
  {
    hide Faithful, Asked, UrlsMeetable, IsMulti, Contains, Guarded, RuleProto, Blocked, MarkMet, EmptyLists;
    FaithfulExactly(def, ingress, target, options);
    EmptyOptions(options);
    NoUrls(def);
    if CompilesRight(def, ingress, target, options) {
      forall mark: Word | mark.top == 0 ensures !Asked(def, ingress, mark) {
        assert ProtoAgrees(def, Udp) && !Lets(def, ingress, target, options, Udp, mark);
      }
      assert ZERO.top == 0 && !ProtoAgrees(def, Tcp) && !LetsStranger(def, ingress, target, options, Tcp, ZERO);
    }
  }

  lemma NoUrls(def: RuleDef)
    requires RuleProto(def) == JustUdp
    ensures UrlsMeetable(def)
  {
    HttpListed(def.notUrls);
  }

  lemma EmptyOptions(options: string)
    requires Contains(options, "tcp-reset")
    ensures options != ""
  {
  }

  lemma ResetOptions()
    ensures Contains(TCP_RESET, "tcp-reset")
  {
    assert FoundAt(TCP_RESET, "tcp-reset", 15);
  }
}

/** The compiler as the source runs it: lists that grow, and a string of single checks that is
    rewritten, while the categories are visited in a fixed order. */
module RuleBuilder {
  import opened Wrappers
  import opened Netfilter
  import opened RuleCompiler
  import Sequences

  class Builder {
    var multiRules: seq<Rule>
    var singleCheck: seq<Match>
    var initialMask: seq<bool>
    var finalMask: seq<bool>
    var maskByteIndex: nat
    var allRules: seq<Rule>

    constructor ()
      ensures multiRules == [] && singleCheck == [] && initialMask == [] && finalMask == []
      ensures maskByteIndex == 0 && allRules == []
    {
      multiRules, singleCheck, initialMask, finalMask, maskByteIndex, allRules := [], [], [], [], 0, [];
    }

    /** The builder has visited exactly the categories `cats`, after checks `base`. */
    ghost predicate Visited(cats: seq<Category>, proto: ProtoChoice, base: seq<Match>)
      reads this
    {
      |cats| <= 8 && maskByteIndex == |cats| &&
      multiRules == FlagRules(cats, proto) &&
      singleCheck == Singles(cats) + base &&
      |initialMask| == |finalMask| == |cats| &&
      forall i | 0 <= i < |cats| ::
        initialMask[i] == cats[i].negated && finalMask[i] == cats[i].multi
    }

    method ComputeMultiRules(tests: Option<seq<Test>>, neverSingle: bool, isNegation: bool, proto: ProtoChoice,
                             requiresProto: bool)
      returns (parseType: nat)
      requires maskByteIndex < 8
      modifies `multiRules, `singleCheck
      ensures parseType == if tests.None? then 0 else if |tests.value| == 1 && !neverSingle then 1 else 2
      ensures multiRules == old(multiRules) +
              if parseType == 2 then ListRules(tests.value, maskByteIndex, isNegation, proto, requiresProto) else []
      ensures singleCheck == (if parseType == 1 then [Check(tests.value[0], isNegation)] else []) + old(singleCheck)
    {
      parseType := 0;
      if tests.Some? {
        var def := tests.value;
        if |def| == 1 && !neverSingle {
          parseType := 1;
          singleCheck := [Check(def[0], isNegation)] + singleCheck;
        } else {
          parseType := 2;
          PushTests(def, isNegation, proto, requiresProto);
        }
      }
    }

    method PushTests(def: seq<Test>, isNegation: bool, proto: ProtoChoice, requiresProto: bool)
      requires maskByteIndex < 8
      modifies `multiRules
      ensures multiRules == old(multiRules) + ListRules(def, maskByteIndex, isNegation, proto, requiresProto)
    {
      var i := 0;
      while i < |def|
        invariant 0 <= i <= |def|
        invariant multiRules == old(multiRules) + ListRules(def[..i], maskByteIndex, isNegation, proto, requiresProto)
      {
        PushTest(def[i], isNegation, proto, requiresProto);
        assert def[..i + 1][..i] == def[..i];
        i := i + 1;
      }
      assert def[..|def|] == def;
    }

    /** The rules of one test: one, or one per protocol. */
    method PushTest(test: Test, isNegation: bool, proto: ProtoChoice, requiresProto: bool)
      requires maskByteIndex < 8
      modifies `multiRules
      ensures multiRules == old(multiRules) + TestRules(test, maskByteIndex, isNegation, proto, requiresProto)
    {
      var bit := ScratchBit(maskByteIndex);
      var action := SetMark(if isNegation then ZERO else bit, bit);
      var common := Check(test, false);
      match proto {
        case Both =>
          if requiresProto {
            multiRules := multiRules + [Rule([ProtoIs(Tcp), common], action)];
            multiRules := multiRules + [Rule([ProtoIs(Udp), common], action)];
          } else {
            multiRules := multiRules + [Rule([common], action)];
          }
        case JustTcp => multiRules := multiRules + [Rule([ProtoIs(Tcp), common], action)];
        case JustUdp => multiRules := multiRules + [Rule([ProtoIs(Udp), common], action)];
      }
    }

    /** Between categories `cats` and the next, whose tests so far are `open.tests`. */
    ghost predicate Collecting(cats: seq<Category>, open: Category, proto: ProtoChoice, base: seq<Match>)
      reads this
    {
      |cats| < 8 && maskByteIndex == |cats| &&
      multiRules == FlagRules(cats, proto) + CategoryRules(open, |cats|, proto) &&
      singleCheck == CategorySingle(open) + (Singles(cats) + base) &&
      |initialMask| == |finalMask| == |cats| &&
      forall i | 0 <= i < |cats| :: initialMask[i] == cats[i].negated && finalMask[i] == cats[i].multi
    }

    /** Ends the category whose tests have been compiled. */
    method PushMasks(isNegated: bool, isMulti: bool, ghost cats: seq<Category>, ghost done: Category,
                     ghost proto: ProtoChoice, ghost base: seq<Match>)
      requires Collecting(cats, done, proto, base) && done.negated == isNegated && done.multi == isMulti
      modifies `initialMask, `finalMask, `maskByteIndex
      ensures Visited(cats + [done], proto, base)
    {
      initialMask := initialMask + [isNegated];
      finalMask := finalMask + [isMulti];
      maskByteIndex := maskByteIndex + 1;
      AddCategory(cats, done, proto);
      Sequences.Associate(CategorySingle(done), Singles(cats), base);
    }

    /** One of the several lists of a category. */
    method AddTests(list: seq<Test>, isMulti: bool, isNegated: bool, proto: ProtoChoice, requiresProto: bool,
                    ghost cats: seq<Category>, ghost open: Category, ghost base: seq<Match>)
      requires Collecting(cats, open, proto, base) && open.multi == isMulti && open.negated == isNegated && !open.strict
      requires proto == Both ==> !requiresProto
      requires !isMulti ==> |open.tests| + |list| <= 1
      modifies `multiRules, `singleCheck
      ensures Collecting(cats, open.(tests := open.tests + list), proto, base)
    {
      ghost var grown := open.(tests := open.tests + list);
      if |list| > 0 {
        ghost var singles := Singles(cats) + base;
        GrowCategory(open, list, |cats|, proto, requiresProto);
        GrowSingle(open, list, singles);
        Sequences.Associate(FlagRules(cats, proto), CategoryRules(open, |cats|, proto),
              if isMulti then ListRules(list, |cats|, isNegated, proto, requiresProto) else []);
        hide FlagRules, CategoryRules, ListRules, Singles, CategorySingle;
        var parseType := ComputeMultiRules(Some(list), isMulti, isNegated, proto, requiresProto);
        assert multiRules == FlagRules(cats, proto) + CategoryRules(grown, |cats|, proto);
        assert singleCheck == CategorySingle(grown) + singles;
      } else {
        assert grown == open;
      }
    }

    /** A category with one list of tests: fwmarks, connection marks and ports. */
    method VisitList(pos: Option<seq<Test>>, neg: Option<seq<Test>>, negatedIsMulti: bool, strict: bool,
                     proto: ProtoChoice, requiresProto: bool, ghost cats: seq<Category>, ghost base: seq<Match>)
      requires |cats| < 8 && Visited(cats, proto, base)
      requires proto == Both ==> requiresProto == strict
      modifies this
      ensures Visited(cats + [ListCategory(pos, neg, negatedIsMulti, strict)], proto, base)
      ensures allRules == old(allRules)
    {
      var isNegated := pos.None?;
      var def := if pos.None? then neg else pos;
      isNegated := if def.None? then false else isNegated;
      ghost var c := ListCategory(pos, neg, negatedIsMulti, strict);
      SameListRules(c.tests, |cats|, c.negated, proto, strict, requiresProto);
      var parseType := ComputeMultiRules(def, negatedIsMulti && isNegated, isNegated, proto, requiresProto);
      PushMasks(isNegated, parseType == 2, cats, c, proto, base);
    }

    /** The several lists of one category share its flag. */
    method AddLists(parts: seq<seq<Test>>, isMulti: bool, isNegated: bool, proto: ProtoChoice, requiresProto: bool,
                    ghost cats: seq<Category>, ghost base: seq<Match>)
      requires !isMulti ==> |Concat(parts)| <= 1
      requires proto == Both ==> !requiresProto
      requires Visited(cats, proto, base) && |cats| < 8
      modifies this
      ensures Visited(cats + [Category(Concat(parts), isNegated, isMulti, false)], proto, base)
      ensures allRules == old(allRules)
    {
      OpenCategory(cats, Category([], isNegated, isMulti, false), proto, base);
      AddParts(parts, isMulti, isNegated, proto, requiresProto, cats, base);
      PushMasks(isNegated, isMulti, cats, Category(Concat(parts), isNegated, isMulti, false), proto, base);
    }

    method AddParts(parts: seq<seq<Test>>, isMulti: bool, isNegated: bool, proto: ProtoChoice, requiresProto: bool,
                    ghost cats: seq<Category>, ghost base: seq<Match>)
      requires !isMulti ==> |Concat(parts)| <= 1
      requires proto == Both ==> !requiresProto
      requires Collecting(cats, Category([], isNegated, isMulti, false), proto, base)
      modifies `multiRules, `singleCheck
      ensures Collecting(cats, Category(Concat(parts), isNegated, isMulti, false), proto, base)
    {
      ghost var open := Category([], isNegated, isMulti, false);
      var i := 0;
      while i < |parts|
        invariant 0 <= i <= |parts|
        invariant open == Category(Concat(parts[..i]), isNegated, isMulti, false) && Collecting(cats, open, proto, base)
      {
        assert parts[..i + 1][..i] == parts[..i];
        ConcatPrefix(parts, i + 1);
        AddTests(parts[i], isMulti, isNegated, proto, requiresProto, cats, open, base);
        open := open.(tests := open.tests + parts[i]);
        i := i + 1;
      }
      assert parts[..|parts|] == parts;
    }

    lemma OpenCategory(cats: seq<Category>, open: Category, proto: ProtoChoice, base: seq<Match>)
      requires Visited(cats, proto, base) && |cats| < 8 && open.tests == []
      ensures Collecting(cats, open, proto, base)
    {
    }

    /** All six URL lists feed one flag, and the positive lists hide the negated ones. */
    method VisitUrls(def: RuleDef, includeProto: bool, ghost base: seq<Match>)
      returns (proto: ProtoChoice, urlIsNegated: bool, urlIsMulti: bool)
      requires Visited([], RuleProto(def), base)
      requires def.proto == Both ==> !includeProto
      modifies this
      ensures Visited([UrlCategory(def)], RuleProto(def), base)
      ensures proto == RuleProto(def) && allRules == old(allRules)
      ensures urlIsNegated == UrlCategory(def).negated && urlIsMulti == UrlCategory(def).multi
    {
      var lists := UrlParts(def.urls);
      var count := CountTests(lists);
      urlIsNegated := false;
      if count == 0 {
        lists := UrlParts(def.notUrls);
        count := CountTests(lists);
        urlIsNegated := true;
      }
      proto := if count > 0 then JustTcp else def.proto;
      urlIsMulti := count > 1;
      AddLists(lists, urlIsMulti, urlIsNegated, proto, includeProto, [], base);
      assert [] + [UrlCategory(def)] == [UrlCategory(def)];
    }

    /** An address category exists only when the definition names it. */
    method VisitAddrs(pos: Option<Addrs>, neg: Option<Addrs>, dst: bool, proto: ProtoChoice, requiresProto: bool,
                      ghost cats: seq<Category>, ghost base: seq<Match>)
      requires Visited(cats, proto, base) && |cats| < 8
      requires proto == Both ==> !requiresProto
      modifies this
      ensures Visited(cats + AddrCategory(pos, neg, dst), proto, base) && allRules == old(allRules)
    {
      var isNegated := pos.None? && neg.Some?;
      var addrs := if isNegated then neg else pos;
      if addrs.Some? {
        var lists := AddrParts(addrs.value, dst);
        var total := CountTests(lists);
        AddLists(lists, total > 1, isNegated, proto, requiresProto, cats, base);
      } else {
        assert cats + [] == cats;
      }
    }

    /** The checks that are never negated and never need a flag. */
    method CollectChecks(def: RuleDef)
      requires singleCheck == []
      modifies `singleCheck
      ensures singleCheck == TimeChecks(def) + OtherChecks(def)
    {
      CollectTimes(def);
      hide TimeChecks;
      if def.layer7.Some? {
        AppendCheck(Layer7, def.layer7.value);
      }
      if def.ipp2p.Some? {
        AppendCheck(Ipp2p, def.ipp2p.value);
      }
      if def.minSize.Some? && def.maxSize.Some? {
        AppendCheck(PktLength, def.minSize.value + ":" + def.maxSize.value);
      }
    }

    method CollectTimes(def: RuleDef)
      requires singleCheck == []
      modifies `singleCheck
      ensures singleCheck == TimeChecks(def)
    {
      if def.weeklyRanges.Some? {
        AppendCheck(TimeRange, "--weekly_ranges " + def.weeklyRanges.value);
      } else if def.hours.Some? && def.weekdays.Some? {
        AppendCheck(TimeRange, "--hours " + def.hours.value + " --weekdays " + def.weekdays.value);
      } else if def.hours.Some? {
        AppendCheck(TimeRange, "--hours " + def.hours.value);
      } else if def.weekdays.Some? {
        AppendCheck(TimeRange, "--weekdays " + def.weekdays.value);
      }
    }

    method AppendCheck(kind: Kind, arg: string)
      modifies `singleCheck
      ensures singleCheck == old(singleCheck) + [Check(Opaque(kind, arg), false)]
    {
      singleCheck := singleCheck + [Check(Opaque(kind, arg), false)];
    }

    /** What is left of the mask lists after the first `n` flags. */
    ghost predicate MasksFrom(cats: seq<Category>, n: nat)
      reads `initialMask, `finalMask
    {
      |initialMask| == |finalMask| == (if n < |cats| then |cats| - n else 0) &&
      forall i | 0 <= i < |initialMask| ::
        initialMask[i] == cats[n + i].negated && finalMask[i] == cats[n + i].multi
    }

    /** The flag of the single checks, if any, has no entry in the lists. */
    method ShiftMasks(n: nat, ghost cats: seq<Category>, ghost extra: seq<Category>)
      returns (isMulti: bool, isPreset: bool)
      requires n < |cats + extra| && MasksFrom(cats, n)
      requires forall c | c in extra :: c.multi && !c.negated
      modifies `initialMask, `finalMask
      ensures MasksFrom(cats, n + 1)
      ensures isMulti == FinalFlags(cats + extra)[n] && (isMulti && isPreset) == PresetFlags(cats + extra)[n]
    {
      isMulti := true;
      if |finalMask| > 0 {
        isMulti, finalMask := finalMask[0], finalMask[1..];
      }
      isPreset := false;
      if |initialMask| > 0 {
        isPreset, initialMask := initialMask[0] && n != 0, initialMask[1..];
      }
    }

    /** Drains the two mask lists into the match of the final rule and the preset mark. */
    method DrainMasks(ghost cats: seq<Category>, ghost extra: seq<Category>)
      returns (initialMainMark: Word, finalMatch: Word)
      requires MasksFrom(cats, 0) && maskByteIndex == |cats + extra| <= 8
      requires forall c | c in extra :: c.multi && !c.negated
      modifies `initialMask, `finalMask
      ensures finalMatch == FlagSum(FinalFlags(cats + extra))
      ensures initialMainMark == FlagSum(PresetFlags(cats + extra))
    {
      ghost var final, preset := FinalFlags(cats + extra), PresetFlags(cats + extra);
      initialMainMark, finalMatch := ZERO, ZERO;
      var next := 0;
      while next < maskByteIndex
        invariant 0 <= next <= maskByteIndex && MasksFrom(cats, next)
        invariant finalMatch == FlagSum(final[..next]) && initialMainMark == FlagSum(preset[..next])
      {
        var isMulti, isPreset := ShiftMasks(next, cats, extra);
        var bit := if isMulti then ScratchBit(next) else ZERO;
        NextFlag(final, next);
        NextFlag(preset, next);
        finalMatch := AddBit(finalMatch, bit);
        initialMainMark := AddBit(initialMainMark, if isPreset then bit else ZERO);
        next := next + 1;
      }
      assert final[..next] == final && preset[..next] == preset;
    }

    method Push(rule: Rule)
      modifies `allRules
      ensures allRules == old(allRules) + [rule]
    {
      allRules := allRules + [rule];
    }

    /** Compiles the single checks to a flag of their own, if there are any. */
    method CloseSingle(def: RuleDef, proto: ProtoChoice, ghost cats: seq<Category>) returns (ghost extra: seq<Category>)
      requires maskByteIndex == |cats| <= 7
      modifies `multiRules, `singleCheck, `maskByteIndex
      ensures extra == if old(singleCheck) == [] then [] else
                [Category([All(old(singleCheck))], false, true, proto != Both || HasPorts(def))]
      ensures multiRules == old(multiRules) +
              (if extra == [] then [] else CategoryRules(extra[0], |cats|, proto))
      ensures maskByteIndex == |cats + extra|
    {
      extra := [];
      if |singleCheck| > 0 {
        var requiresProto := !(proto == Both && !HasPorts(def));
        extra := [Category([All(singleCheck)], false, true, requiresProto)];
        var parseType := ComputeMultiRules(Some([All(singleCheck)]), true, false, proto, requiresProto);
        maskByteIndex := maskByteIndex + 1;
      }
    }

    method EmitMulti(def: RuleDef, proto: ProtoChoice, urlIsNegated: bool, urlIsMulti: bool, target: string,
                     options: string, ghost cats: seq<Category>,
                     ghost base: seq<Match>) returns (ghost all: seq<Category>)
      requires Visited(cats, proto, base) && 0 < |cats| <= 7 && allRules == []
      requires cats[0].negated == urlIsNegated && cats[0].multi == urlIsMulti
      modifies this
      ensures all == WithSingle(cats, Singles(cats) + base, proto != Both || HasPorts(def))
      ensures allRules == MultiChain(all, proto, target, options)
    {
      hide FlagRules, CategoryRules, ListRules, Singles, CategorySingle, PresetRules, FinalRules, HasPorts, FlagSum;
      ghost var extra := CloseSingle(def, proto, cats);
      all := cats + extra;
      RulesOfAll(cats, extra, proto);
      var initialMainMark, finalMatch := DrainMasks(cats, extra);
      EmitPresets(initialMainMark, urlIsNegated, urlIsMulti, all);
      MoveMultiRules();
      EmitFinal(finalMatch, proto, target, options);
    }

    method EmitPresets(initialMainMark: Word, urlIsNegated: bool, urlIsMulti: bool, ghost all: seq<Category>)
      requires 0 < |all| <= 8 && allRules == [] && initialMainMark == FlagSum(PresetFlags(all))
      requires all[0].negated == urlIsNegated && all[0].multi == urlIsMulti
      modifies `allRules
      ensures allRules == PresetRules(all)
    {
      if initialMainMark.top != 0 {
        Push(Rule([], SetMark(initialMainMark, SCRATCH)));
      }
      if urlIsNegated && urlIsMulti {
        Push(Rule([ProtoIs(Tcp), HTTP], SetMark(ScratchBit(0), ScratchBit(0))));
      }
    }

    method MoveMultiRules()
      modifies `allRules, `multiRules
      ensures allRules == old(allRules + multiRules)
    {
      while |multiRules| > 0
        invariant allRules + multiRules == old(allRules + multiRules)
        decreases |multiRules|
      {
        var first := multiRules[0];
        multiRules := multiRules[1..];
        Push(first);
      }
    }

    method EmitFinal(finalMatch: Word, proto: ProtoChoice, target: string, options: string)
      modifies `allRules
      ensures allRules == old(allRules) + FinalRules(finalMatch, proto, target, options)
    {
      var ready := Check(Connmark(finalMatch, SCRATCH), false);
      if target == "REJECT" && options == "" && proto != Both {
        Push(Rule([ProtoIs(Tcp), ready], Jump("REJECT", TCP_RESET)));
        Push(Rule([ready], Jump("REJECT", "")));
      } else {
        var finalProto := if Contains(options, "tcp-reset") then [ProtoIs(Tcp)] else [];
        Push(Rule(finalProto + [ready], Jump(target, options)));
      }
      Push(Rule([], SetMark(ZERO, SCRATCH)));
    }

    method EmitPlain(def: RuleDef, proto: ProtoChoice, target: string, options: string)
      requires proto == RuleProto(def) && allRules == []
      modifies `allRules
      ensures allRules == PlainChain(def, singleCheck, target, options)
    {
      var go := Jump(target, options);
      match proto {
        case Both =>
          if !HasPorts(def) {
            if target == "REJECT" && options == "" {
              Push(Rule([ProtoIs(Tcp)] + singleCheck, Jump("REJECT", TCP_RESET)));
            }
            Push(Rule(singleCheck, go));
          } else {
            if target == "REJECT" && options == "" {
              Push(Rule([ProtoIs(Tcp)] + singleCheck, Jump("REJECT", TCP_RESET)));
            } else {
              Push(Rule([ProtoIs(Tcp)] + singleCheck, go));
            }
            Push(Rule([ProtoIs(Udp)] + singleCheck, go));
          }
        case JustTcp => Push(Rule([ProtoIs(Tcp)] + singleCheck, go));
        case JustUdp => Push(Rule([ProtoIs(Udp)] + singleCheck, go));
      }
    }

    method EmitTail(def: RuleDef, ingress: bool, target: string)
      modifies `allRules
      ensures allRules == old(allRules) + WhiteListTail(def, ingress, target)
    {
      var urlRuleCount := |UrlCategory(def).tests|;
      if urlRuleCount > 0 && target == "ACCEPT" && !ingress {
        Push(Rule([ProtoIs(Tcp), HTTP], SetMark(SCRATCH, SCRATCH)));
        Push(Rule([ProtoIs(Tcp), Check(Opaque(DstPort, "80"), false), Check(Connmark(SCRATCH, SCRATCH), true)],
                  Jump("ACCEPT", "")));
        Push(Rule([], SetMark(ZERO, SCRATCH)));
      }
    }

    method VisitHead(def: RuleDef, includeProto: bool, ghost base: seq<Match>)
      returns (proto: ProtoChoice, urlIsNegated: bool, urlIsMulti: bool)
      requires Visited([], RuleProto(def), base)
      requires def.proto == Both ==> !includeProto
      modifies this
      ensures Visited(HeadCategories(def), RuleProto(def), base) && allRules == old(allRules)
      ensures proto == RuleProto(def)
      ensures urlIsNegated == UrlCategory(def).negated && urlIsMulti == UrlCategory(def).multi
    {
      proto, urlIsNegated, urlIsMulti := VisitUrls(def, includeProto, base);
      ghost var marks := MarkCategory(def);
      VisitList(OptTests(FwMark, def.mark), OptTests(FwMark, def.notMark), true, false, proto, includeProto,
                [UrlCategory(def)], base);
      assert [UrlCategory(def)] + [marks] == [UrlCategory(def), marks];
      VisitList(OptMarks(def.connmark), OptMarks(def.notConnmark), false, false, proto, includeProto,
                [UrlCategory(def), marks], base);
      assert [UrlCategory(def), marks] + [ConnmarkCategory(def)] == HeadCategories(def);
    }

    method VisitAddresses(def: RuleDef, ingress: bool, proto: ProtoChoice, includeProto: bool,
                          ghost cats: seq<Category>, ghost base: seq<Match>)
      requires Visited(cats, proto, base) && |cats| <= 6
      requires proto == Both ==> !includeProto
      modifies this
      ensures Visited(cats + AddrCategories(def, ingress), proto, base) && allRules == old(allRules)
    {
      var (src, notSrc) := SrcAddrs(def, ingress);
      var (dst, notDst) := DstAddrs(def, ingress);
      VisitAddrs(src, notSrc, false, proto, includeProto, cats, base);
      VisitAddrs(dst, notDst, true, proto, includeProto, cats + AddrCategory(src, notSrc, false), base);
      Sequences.Associate(cats, AddrCategory(src, notSrc, false), AddrCategory(dst, notDst, true));
    }

    method VisitPorts(def: RuleDef, ingress: bool, proto: ProtoChoice, ghost cats: seq<Category>,
                      ghost base: seq<Match>)
      requires Visited(cats, proto, base) && |cats| <= 6
      modifies this
      ensures Visited(cats + PortCategories(def, ingress), proto, base) && allRules == old(allRules)
    {
      var sport, dport := SrcPorts(def, ingress), DstPorts(def, ingress);
      ghost var s, d := PortCategory(SrcPort, sport), PortCategory(DstPort, dport);
      VisitList(OptTests(SrcPort, sport.0), OptTests(SrcPort, sport.1), false, true, proto, true, cats, base);
      VisitList(OptTests(DstPort, dport.0), OptTests(DstPort, dport.1), false, true, proto, true, cats + [s], base);
      assert cats + [s] + [d] == cats + PortCategories(def, ingress);
    }

    /** Visits the categories in flag order. */
    method VisitAll(def: RuleDef, ingress: bool)
      returns (proto: ProtoChoice, urlIsNegated: bool, urlIsMulti: bool)
      requires Visited([], RuleProto(def), []) && allRules == []
      modifies this
      ensures Visited(Categories(def, ingress), RuleProto(def), BaseChecks(def)) && allRules == []
      ensures proto == RuleProto(def)
      ensures urlIsNegated == UrlCategory(def).negated && urlIsMulti == UrlCategory(def).multi
    {
      CollectChecks(def);
      ghost var base := BaseChecks(def);
      assert [] + base == base;
      var includeProto := def.proto != Both;
      proto, urlIsNegated, urlIsMulti := VisitHead(def, includeProto, base);
      VisitAddresses(def, ingress, proto, includeProto, HeadCategories(def), base);
      VisitPorts(def, ingress, proto, HeadCategories(def) + AddrCategories(def, ingress), base);
    }
  }

  /** One rule definition to one chain. */
  method ComputeRules(def: RuleDef, ingress: bool, target: string, targetOptions: string) returns (rules: seq<Rule>)
    ensures rules == Chain(def, ingress, target, targetOptions)
  {
    var b := new Builder();
    var proto, urlIsNegated, urlIsMulti := b.VisitAll(def, ingress);
    var options := if |targetOptions| == 0 && proto == JustTcp && target == "REJECT" then TCP_RESET else targetOptions;
    EmitMain(b, def, ingress, proto, urlIsNegated, urlIsMulti, target, options);
    b.EmitTail(def, ingress, target);
    rules := b.allRules;
  }

  method EmitMain(b: Builder, def: RuleDef, ghost ingress: bool, proto: ProtoChoice, urlIsNegated: bool,
                  urlIsMulti: bool, target: string, options: string)
    requires proto == RuleProto(def) && b.allRules == []
    requires b.Visited(Categories(def, ingress), proto, BaseChecks(def))
    requires urlIsNegated == UrlCategory(def).negated && urlIsMulti == UrlCategory(def).multi
    modifies b
    ensures b.allRules == if IsMulti(def, ingress) then MultiChain(Compiled(def, ingress), proto, target, options)
                          else PlainChain(def, SingleChecks(def, ingress), target, options)
  {
    ghost var cats := Categories(def, ingress);
    if |b.multiRules| > 0 {
      assert cats[0] == UrlCategory(def);
      ghost var all := b.EmitMulti(def, proto, urlIsNegated, urlIsMulti, target, options, cats, BaseChecks(def));
      assert all == Compiled(def, ingress);
    } else {
      b.EmitPlain(def, proto, target, options);
    }
  }

  lemma NextFlag(flags: seq<bool>, n: nat)
    requires n < |flags| <= 8
    ensures FlagSum(flags[..n + 1]) == AddBit(FlagSum(flags[..n]), if flags[n] then ScratchBit(n) else ZERO)
  {
    assert flags[..n + 1][..n] == flags[..n];
  }

  method CountTests(parts: seq<seq<Test>>) returns (count: nat)
    ensures count == |Concat(parts)|
  {
    count := 0;
    var i := 0;
    while i < |parts|
      invariant 0 <= i <= |parts| && count == |Concat(parts[..i])|
    {
      assert parts[..i + 1][..i] == parts[..i];
      count := count + |parts[i]|;
      i := i + 1;
    }
    assert parts[..|parts|] == parts;
  }

  lemma GrowCategory(c: Category, list: seq<Test>, i: nat, proto: ProtoChoice, requiresProto: bool)
    requires i < 8 && !c.strict && (proto == Both ==> !requiresProto)
    ensures CategoryRules(c.(tests := c.tests + list), i, proto) ==
            CategoryRules(c, i, proto) + if c.multi then ListRules(list, i, c.negated, proto, requiresProto) else []
  {
    AppendListRules(c.tests, list, i, c.negated, proto, false);
    SameListRules(list, i, c.negated, proto, false, requiresProto);
  }

  lemma RulesOfAll(cats: seq<Category>, extra: seq<Category>, proto: ProtoChoice)
    requires |cats| < 8 && |extra| <= 1
    ensures FlagRules(cats + extra, proto) ==
            FlagRules(cats, proto) + if extra == [] then [] else CategoryRules(extra[0], |cats|, proto)
  {
    if extra == [] { assert cats + extra == cats; } else { AddCategory(cats, extra[0], proto); }
  }

  /** A category that is not compiled to rules has at most one test. */
  lemma GrowSingle(c: Category, list: seq<Test>, singles: seq<Match>)
    requires |list| > 0 && (!c.multi ==> |c.tests| + |list| <= 1)
    ensures CategorySingle(c.(tests := c.tests + list)) + singles ==
            (if c.multi then [] else [Check(list[0], c.negated)]) + (CategorySingle(c) + singles)
  {
    if !c.multi {
      assert c.tests + list == list;
    }
  }

  lemma AddCategory(cats: seq<Category>, c: Category, proto: ProtoChoice)
    requires |cats| < 8
    ensures FlagRules(cats + [c], proto) == FlagRules(cats, proto) + CategoryRules(c, |cats|, proto)
    ensures Singles(cats + [c]) == CategorySingle(c) + Singles(cats)
  {
    assert (cats + [c])[..|cats|] == cats;
  }

  /** Only a definition for both protocols looks at `requiresProto`. */
  lemma {:induction false} SameListRules(ts: seq<Test>, i: nat, negated: bool, proto: ProtoChoice, a: bool, b: bool)
    requires i < 8 && (proto == Both ==> a == b)
    ensures ListRules(ts, i, negated, proto, a) == ListRules(ts, i, negated, proto, b)
  {
    if ts != [] {
      SameListRules(ts[..|ts| - 1], i, negated, proto, a, b);
    }
  }

  lemma {:induction false} AppendListRules(a: seq<Test>, b: seq<Test>, i: nat, negated: bool, proto: ProtoChoice,
                                           r: bool)
    requires i < 8
    ensures ListRules(a + b, i, negated, proto, r) ==
            ListRules(a, i, negated, proto, r) + ListRules(b, i, negated, proto, r)
  {
    if b == [] {
      assert a + b == a;
    } else {
      assert (a + b)[..|a + b| - 1] == a + b[..|b| - 1];
      AppendListRules(a, b[..|b| - 1], i, negated, proto, r);
    }
  }

  lemma {:induction false} ConcatPrefix(parts: seq<seq<Test>>, n: nat)
    requires n <= |parts|
    ensures |Concat(parts[..n])| <= |Concat(parts)|
    decreases |parts| - n
  {
    if n < |parts| {
      assert parts[..n + 1][..n] == parts[..n];
      ConcatPrefix(parts, n + 1);
    } else {
      assert parts[..n] == parts;
    }
  }
}

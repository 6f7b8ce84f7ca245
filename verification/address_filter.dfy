/** Quotas are restored for the addresses that have none of their own: records inside the ranges of
    any defined group are filtered out. Addresses are in host order. */
module AddressFilter {
  import opened LinkedLists
  import Sequences

  // ---------- ranges ----------

  /** A piece of a group: an address, a range of addresses, or an address with a mask or a prefix length. */
  datatype Piece =
    | Address(ip: bv32)
    | Span(first: bv32, last: bv32)
    | Block(ip: bv32, mask: bv32)
    | Prefix(ip: bv32, size: bv32)

  /** A shift by as many bits as a word has is not defined. */
  predicate Defined(p: Piece) {
    p.Prefix? ==> 1 <= p.size <= 32
  }

  function PrefixMask(size: bv32): bv32
    requires 1 <= size <= 32
  {
    0xFFFF_FFFF << (32 - size)
  }

  function Masked(a: bv32, mask: bv32): bv32 {
    a & mask
  }

  function Filled(s: bv32, mask: bv32): bv32 {
    s | !mask
  }

  predicate AtMost(a: bv32, b: bv32) {
    a <= b
  }

  function First(p: Piece): bv32
    requires Defined(p)
  {
    match p
    case Address(ip) => ip
    case Span(first, _) => first
    case Block(ip, mask) => Masked(ip, mask)
    case Prefix(ip, size) => Masked(ip, PrefixMask(size))
  }

  function Last(p: Piece): bv32
    requires Defined(p)
  {
    match p
    case Address(ip) => ip
    case Span(_, last) => last
    case Block(ip, mask) => Filled(Masked(ip, mask), mask)
    case Prefix(ip, size) => Filled(Masked(ip, PrefixMask(size)), PrefixMask(size))
  }

  predicate Inside(a: bv32, p: Piece)
    requires Defined(p)
  {
    AtMost(First(p), a) && AtMost(a, Last(p))
  }

  // ---------- what ranges hold ----------

  /** The bits of a mask come before all others. */
  predicate Contiguous(mask: bv32) {
    !mask & (!mask + 1) == 0
  }

  /** An address lies between itself with all of some bits cleared and with all of them set. */
  lemma Between(a: bv32, mask: bv32)
    ensures AtMost(Masked(a, mask), a) && AtMost(a, Filled(Masked(a, mask), mask))
  {
  }

  /** Where two addresses differ under a mask. */
  function Difference(a: bv32, b: bv32, mask: bv32): bv32 {
    (b ^ (a & mask)) & mask
  }

  /** The addresses in the range of a prefix do not differ under it. */
  lemma NoDifference(a: bv32, b: bv32, mask: bv32)
    requires Contiguous(mask) && AtMost(Masked(a, mask), b) && AtMost(b, Filled(Masked(a, mask), mask))
    ensures Difference(a, b, mask) == 0
  {
  }

  lemma AgreeUnder(a: bv32, b: bv32, mask: bv32)
    requires Difference(a, b, mask) == 0
    ensures Masked(a, mask) == Masked(b, mask)
  {
  }

  lemma PrefixBlock(ip: bv32, mask: bv32, a: bv32)
    requires Contiguous(mask)
    ensures Inside(a, Block(ip, mask)) <==> Masked(a, mask) == Masked(ip, mask)
  {
    hide Contiguous, Masked, Filled, AtMost, Difference;
    Between(a, mask);
    if Inside(a, Block(ip, mask)) {
      NoDifference(ip, a, mask);
      AgreeUnder(ip, a, mask);
    }
  }

  /** The lowest bit of a mask that has cleared bits above. */
  function LowBit(mask: bv32): bv32 {
    mask & (!mask + 1)
  }

  function SetBit(a: bv32, mask: bv32, bit: bv32): bv32 {
    (a & mask) | bit
  }

  function ClearBit(a: bv32, mask: bv32, bit: bv32): bv32 {
    (a & mask & !bit) | !mask
  }

  predicate HasBit(a: bv32, bit: bv32) {
    a & bit != 0
  }

  /** An address in the range of a mask that differs from it under the mask. */
  function Stray(ip: bv32, mask: bv32): bv32 {
    if HasBit(ip, LowBit(mask)) then ClearBit(ip, mask, LowBit(mask)) else SetBit(ip, mask, LowBit(mask))
  }

  lemma BitIsSet(ip: bv32, mask: bv32)
    requires !Contiguous(mask) && !HasBit(ip, LowBit(mask))
    ensures AtMost(Masked(ip, mask), SetBit(ip, mask, LowBit(mask)))
    ensures AtMost(SetBit(ip, mask, LowBit(mask)), Filled(Masked(ip, mask), mask))
    ensures Masked(SetBit(ip, mask, LowBit(mask)), mask) != Masked(ip, mask)
  {
  }

  lemma BitIsCleared(ip: bv32, mask: bv32)
    requires !Contiguous(mask) && HasBit(ip, LowBit(mask))
    ensures AtMost(Masked(ip, mask), ClearBit(ip, mask, LowBit(mask)))
    ensures AtMost(ClearBit(ip, mask, LowBit(mask)), Filled(Masked(ip, mask), mask))
    ensures Masked(ClearBit(ip, mask, LowBit(mask)), mask) != Masked(ip, mask)
  {
  }

  lemma StrayIsInside(ip: bv32, mask: bv32)
    requires !Contiguous(mask)
    ensures Inside(Stray(ip, mask), Block(ip, mask)) && Masked(Stray(ip, mask), mask) != Masked(ip, mask)
  {
    hide Contiguous, Masked, Filled, AtMost, LowBit, SetBit, ClearBit, HasBit;
    if HasBit(ip, LowBit(mask)) { BitIsCleared(ip, mask); } else { BitIsSet(ip, mask); }
  }

  /** The range of a mask holds exactly the addresses that agree under it, if the mask is a prefix; with any
      other mask it holds more. */
  lemma MaskIsExact(ip: bv32, mask: bv32)
    ensures Contiguous(mask) <==>
            forall a: bv32 :: Inside(a, Block(ip, mask)) <==> Masked(a, mask) == Masked(ip, mask)
  {
    hide Contiguous, Masked, Inside, Stray;
    if Contiguous(mask) {
      forall a: bv32 ensures Inside(a, Block(ip, mask)) <==> Masked(a, mask) == Masked(ip, mask) {
        PrefixBlock(ip, mask, a);
      }
    } else {
      StrayIsInside(ip, mask);
    }
  }

  lemma PrefixIsContiguous(size: bv32)
    requires 1 <= size <= 32
    ensures Contiguous(PrefixMask(size))
  {
  }

  /** The bits before the last `32 - size`. */
  function Front(a: bv32, size: bv32): bv32
    requires 1 <= size <= 32
  {
    a >> (32 - size)
  }

  lemma SameFront(a: bv32, b: bv32, size: bv32)
    requires 1 <= size <= 32 && Masked(a, PrefixMask(size)) == Masked(b, PrefixMask(size))
    ensures Front(a, size) == Front(b, size)
  {
  }

  lemma FrontIsSame(a: bv32, b: bv32, size: bv32)
    requires 1 <= size <= 32 && Front(a, size) == Front(b, size)
    ensures Masked(a, PrefixMask(size)) == Masked(b, PrefixMask(size))
  {
  }

  /** The range of a prefix holds exactly the addresses that share it (section 3.1 of RFC 4632). */
  lemma PrefixIsShared(ip: bv32, size: bv32, a: bv32)
    requires 1 <= size <= 32
    ensures Inside(a, Prefix(ip, size)) <==> Front(a, size) == Front(ip, size)
  {
    hide PrefixMask, Contiguous, Masked, Filled, AtMost, Front;
    var mask := PrefixMask(size);
    PrefixIsContiguous(size);
    PrefixBlock(ip, mask, a);
    assert Inside(a, Prefix(ip, size)) <==> Inside(a, Block(ip, mask));
    if Masked(a, mask) == Masked(ip, mask) { SameFront(a, ip, size); }
    if Front(a, size) == Front(ip, size) { FrontIsSame(a, ip, size); }
  }

  /** A single address is a range of its own. */
  lemma AddressIsItself(ip: bv32, a: bv32)
    ensures Inside(a, Address(ip)) <==> a == ip
  {
    hide Contiguous, Masked, Filled, AtMost, Difference;
    if Inside(a, Address(ip)) {
      WholeMask(ip);
      WholeMask(a);
      NoDifference(ip, a, 0xFFFF_FFFF);
      AgreeUnder(ip, a, 0xFFFF_FFFF);
    }
    AtMostItself(a);
  }

  lemma WholeMask(a: bv32)
    ensures Masked(a, 0xFFFF_FFFF) == a == Filled(a, 0xFFFF_FFFF) && Contiguous(0xFFFF_FFFF)
  {
  }

  lemma AtMostItself(a: bv32)
    ensures AtMost(a, a)
  {
  }

  /** A span holds what lies between its ends. */
  lemma SpanIsBetween(first: bv32, last: bv32, a: bv32)
    ensures Inside(a, Span(first, last)) <==> first <= a && a <= last
  {
    hide AtMost;
    AtMostIs(first, a);
    AtMostIs(a, last);
  }

  lemma AtMostIs(a: bv32, b: bv32)
    ensures AtMost(a, b) <==> a <= b
  {
  }

  // ---------- filtering ----------

  datatype Usage = Usage(ip: bv32, bw: nat)

  predicate AllDefined(pieces: seq<Piece>) {
    forall i | 0 <= i < |pieces| :: Defined(pieces[i])
  }

  predicate InSome(ip: bv32, pieces: seq<Piece>)
    requires AllDefined(pieces)
  {
    exists i | 0 <= i < |pieces| :: Inside(ip, pieces[i])
  }

  /** The records outside every range, in their order. */
  function Outside(s: seq<Usage>, pieces: seq<Piece>): seq<Usage>
    requires AllDefined(pieces)
  {
    if s == [] then []
    else if InSome(s[0].ip, pieces) then Outside(s[1..], pieces)
    else [s[0]] + Outside(s[1..], pieces)
  }

  function Joined(groups: seq<seq<Piece>>): seq<Piece> {
    if groups == [] then [] else Joined(groups[..|groups| - 1]) + groups[|groups| - 1]
  }

  /** What is kept, said without recursion: the records at increasing places, and every place is kept exactly
      if its address is inside none of the ranges. */
  lemma {:induction false} KeptPlaces(s: seq<Usage>, pieces: seq<Piece>) returns (places: seq<nat>)
    requires AllDefined(pieces)
    ensures |places| == |Outside(s, pieces)|
    ensures forall k | 0 <= k < |places| :: places[k] < |s| && Outside(s, pieces)[k] == s[places[k]]
    ensures forall j, k | 0 <= j < k < |places| :: places[j] < places[k]
    ensures forall i: nat | i < |s| :: i in places <==> !InSome(s[i].ip, pieces)
  {
    hide InSome, AllDefined;
    places := [];
    if s != [] {
      var n := |s| - 1;
      var last: seq<Usage> := [s[n]];
      var front := KeptPlaces(s[..n], pieces);
      assert s[..n] + last == s && last[1..] == [];
      OutsideAppend(s[..n], last, pieces);
      places := front + if InSome(s[n].ip, pieces) then [] else [n];
    }
  }

  lemma {:induction false} OutsideAppend(s: seq<Usage>, t: seq<Usage>, pieces: seq<Piece>)
    requires AllDefined(pieces)
    ensures Outside(s + t, pieces) == Outside(s, pieces) + Outside(t, pieces)
  {
    hide InSome, AllDefined;
    if s == [] {
      assert s + t == t;
    } else {
      assert (s + t)[1..] == s[1..] + t;
      OutsideAppend(s[1..], t, pieces);
    }
  }

  lemma InEither(ip: bv32, p: seq<Piece>, q: seq<Piece>)
    requires AllDefined(p) && AllDefined(q)
    ensures AllDefined(p + q) && (InSome(ip, p + q) <==> InSome(ip, p) || InSome(ip, q))
  {
    hide Inside, Defined;
    forall i | 0 <= i < |p + q| ensures (p + q)[i] in p + q { }
    if i :| 0 <= i < |p| && Inside(ip, p[i]) { assert (p + q)[i] == p[i]; }
    if i :| 0 <= i < |q| && Inside(ip, q[i]) { assert (p + q)[|p| + i] == q[i]; }
  }

  /** Filtering again is filtering by the pieces of both. */
  lemma {:induction false} OutsideBoth(s: seq<Usage>, p: seq<Piece>, q: seq<Piece>)
    requires AllDefined(p) && AllDefined(q)
    ensures AllDefined(p + q) && Outside(Outside(s, p), q) == Outside(s, p + q)
  {
    hide InSome, AllDefined;
    InEither(0, p, q);
    if s != [] {
      InEither(s[0].ip, p, q);
      OutsideBoth(s[1..], p, q);
    }
  }

  lemma {:induction false} OutsideNone(s: seq<Usage>)
    ensures Outside(s, []) == s
  {
    if s != [] { OutsideNone(s[1..]); }
  }

  /** If as many are kept as there were, all are. */
  lemma {:induction false} OutsideIsShorter(s: seq<Usage>, pieces: seq<Piece>)
    requires AllDefined(pieces)
    ensures |Outside(s, pieces)| <= |s| && (|Outside(s, pieces)| == |s| ==> Outside(s, pieces) == s)
  {
    hide InSome, AllDefined;
    if s != [] { OutsideIsShorter(s[1..], pieces); }
  }

  // ---------- the loops ----------

  /** Some records have been kept, and the rest is to be filtered. */
  ghost predicate Filtering(all: seq<Usage>, kept: seq<Usage>, rest: seq<Usage>, pieces: seq<Piece>) {
    AllDefined(pieces) && Outside(all, pieces) == kept + Outside(rest, pieces)
  }

  lemma FilterStarts(all: seq<Usage>, piece: Piece)
    requires Defined(piece)
    ensures Filtering(all, [], all, [piece])
  {
    assert [] + Outside(all, [piece]) == Outside(all, [piece]);
  }

  lemma FilterStep(all: seq<Usage>, kept: seq<Usage>, next: Usage, rest: seq<Usage>, piece: Piece)
    requires Defined(piece) && Filtering(all, kept, [next] + rest, [piece])
    ensures Filtering(all, if Inside(next.ip, piece) then kept else kept + [next], rest, [piece])
  {
    assert ([next] + rest)[1..] == rest && [piece][0] == piece;
    hide Inside;
    assert kept + [next] + Outside(rest, [piece]) == kept + ([next] + Outside(rest, [piece]));
  }

  lemma FilterEnds(all: seq<Usage>, kept: seq<Usage>, rest: seq<Usage>, pieces: seq<Piece>)
    requires Filtering(all, kept, rest, pieces) && rest == []
    ensures AllDefined(pieces) && kept == Outside(all, pieces)
  {
    assert kept + [] == kept;
  }

  lemma EmptyList<T>(list: List<T>)
    requires list.Valid() && (list.nodes == [] || list.length == 0)
    ensures list.nodes == [] && list.Values() == [] && list.length == 0
  {
  }

  /** Drains a list into a new one, without what is inside the range of one piece. */
  method FilterPiece(data: List<Usage>, piece: Piece) returns (kept: List<Usage>)
    requires data.Valid() && Defined(piece)
    modifies data, data.nodes
    ensures fresh(kept) && kept.Valid() && fresh(kept.nodes)
    ensures AllDefined([piece]) && kept.Values() == Outside(old(data.Values()), [piece])
  {
    hide *;
    kept := new List();
    EmptyList(kept);
    FilterStarts(data.Values(), piece);
    while data.length > 0
      invariant data.Valid() && kept.Valid() && fresh(kept) && fresh(kept.nodes)
      invariant forall i | 0 <= i < |data.nodes| :: data.nodes[i] in old(data.nodes)
      invariant Filtering(old(data.Values()), kept.Values(), data.Values(), [piece])
      decreases data.length
    {
      ghost var already := kept.Values();
      var next := data.ShiftValue();
      FilterStep(old(data.Values()), already, next, data.Values(), piece);
      var inside := IsInside(next.ip, piece);
      if !inside {
        kept.PushValue(next);
      }
    }
    EmptyList(data);
    FilterEnds(old(data.Values()), kept.Values(), data.Values(), [piece]);
  }

  method IsInside(ip: bv32, piece: Piece) returns (inside: bool)
    requires Defined(piece)
    ensures inside == Inside(ip, piece)
  {
    hide First, Last, AtMost;
    var first, last := First(piece), Last(piece);
    inside := AtMost(first, ip) && AtMost(ip, last);
  }

  /** What pieces taken so far keep. */
  ghost predicate KeptBy(all: seq<Usage>, kept: seq<Usage>, pieces: seq<Piece>) {
    AllDefined(pieces) && kept == Outside(all, pieces)
  }

  lemma KeptByNone(all: seq<Usage>)
    ensures KeptBy(all, all, [])
  {
    OutsideNone(all);
  }

  lemma KeptByMore(all: seq<Usage>, kept: seq<Usage>, again: seq<Usage>, p: seq<Piece>, q: seq<Piece>)
    requires KeptBy(all, kept, p) && KeptBy(kept, again, q)
    ensures KeptBy(all, again, p + q)
  {
    OutsideBoth(all, p, q);
  }

  /** Filters by one piece after the other, each time into a new list. */
  method FilterGroup(data: List<Usage>, group: seq<Piece>) returns (kept: List<Usage>)
    requires data.Valid() && AllDefined(group)
    modifies data, data.nodes
    ensures kept.Valid() && KeptBy(old(data.Values()), kept.Values(), group)
    ensures (kept == data && kept.nodes == old(data.nodes)) || (fresh(kept) && fresh(kept.nodes))
  {
    kept := data;
    hide KeptBy, Outside, Defined;
    KeptByNone(data.Values());
    assert group[..0] == [];
    var i := 0;
    while i < |group|
      invariant 0 <= i <= |group| && kept.Valid() && KeptBy(old(data.Values()), kept.Values(), group[..i])
      invariant (kept == data && kept.nodes == old(data.nodes)) || (fresh(kept) && fresh(kept.nodes))
    {
      ghost var before := kept.Values();
      kept := FilterPiece(kept, group[i]);
      PieceKeeps(before, kept.Values(), group[i]);
      KeptByMore(old(data.Values()), before, kept.Values(), group[..i], [group[i]]);
      assert group[..i + 1] == group[..i] + [group[i]];
      i := i + 1;
    }
    assert group[..|group|] == group;
  }

  lemma PieceKeeps(all: seq<Usage>, kept: seq<Usage>, piece: Piece)
    requires AllDefined([piece]) && kept == Outside(all, [piece])
    ensures KeptBy(all, kept, [piece])
  {
  }

  method ToList(data: array<Usage>) returns (list: List<Usage>)
    ensures fresh(list) && list.Valid() && fresh(list.nodes) && list.Values() == data[..]
  {
    hide *;
    list := new List();
    EmptyList(list);
    var i := 0;
    while i < data.Length
      invariant 0 <= i <= data.Length && list.Valid() && fresh(list.nodes) && list.Values() == data[..i]
    {
      list.PushValue(data[i]);
      i := i + 1;
    }
    assert data[..i] == data[..];
  }

  /** Rebuilds an array from the back, by taking the last of the list each time. */
  method ToArray(list: List<Usage>) returns (data: array<Usage>)
    requires list.Valid()
    modifies list, list.nodes
    ensures fresh(data) && data.Length == 1 + |old(list.Values())| && data[..data.Length - 1] == old(list.Values())
  {
    hide *;
    Lengths(list);
    ghost var all := list.Values();
    data := new Usage[1 + list.length](_ => Usage(0, 0));
    assert all + data[list.length..list.length] == all;
    while list.length > 0
      invariant list.Valid() && list.length <= |all| && list.Values() + data[list.length..|all|] == all
      invariant forall i | 0 <= i < |list.nodes| :: list.nodes[i] in old(list.nodes)
      decreases list.length
    {
      ghost var rest := data[list.length..|all|];
      var next := list.PopValue();
      Sequences.Associate(list.Values(), [next], rest);
      data[list.length] := next;
      assert data[list.length..|all|] == [next] + rest;
    }
    EmptyList(list);
    assert [] + data[..|all|] == all;
  }

  lemma Lengths<T>(list: List<T>)
    requires list.Valid()
    ensures list.length == |list.Values()|
  {
  }

  predicate GroupsDefined(groups: seq<seq<Piece>>) {
    forall i | 0 <= i < |groups| :: AllDefined(groups[i])
  }

  lemma {:induction false} JoinedHas(groups: seq<seq<Piece>>, p: Piece)
    ensures p in Joined(groups) <==> exists i | 0 <= i < |groups| :: p in groups[i]
  {
    if groups != [] {
      var n := |groups| - 1;
      JoinedHas(groups[..n], p);
      assert forall i | 0 <= i < n :: groups[..n][i] == groups[i];
    }
  }

  /** An address is filtered out exactly if some piece of some group has it in its range. */
  lemma FilteredExactly(ip: bv32, groups: seq<seq<Piece>>)
    requires AllDefined(Joined(groups)) && GroupsDefined(groups)
    ensures InSome(ip, Joined(groups)) <==>
            exists i, j | 0 <= i < |groups| && 0 <= j < |groups[i]| :: Inside(ip, groups[i][j])
  {
    hide Inside, Joined, Defined;
    if InSome(ip, Joined(groups)) {
      var k :| 0 <= k < |Joined(groups)| && Inside(ip, Joined(groups)[k]);
      JoinedHas(groups, Joined(groups)[k]);
      var i :| 0 <= i < |groups| && Joined(groups)[k] in groups[i];
      var j :| 0 <= j < |groups[i]| && groups[i][j] == Joined(groups)[k];
    }
    if i, j :| 0 <= i < |groups| && 0 <= j < |groups[i]| && Inside(ip, groups[i][j]) {
      JoinedHas(groups, groups[i][j]);
      var k :| 0 <= k < |Joined(groups)| && Joined(groups)[k] == groups[i][j];
    }
  }

  lemma JoinedStep(groups: seq<seq<Piece>>, i: nat)
    requires i < |groups|
    ensures Joined(groups[..i + 1]) == Joined(groups[..i]) + groups[i]
  {
    assert groups[..i + 1][..i] == groups[..i];
  }

  /** Filters by one group after the other. */
  method FilterGroups(data: List<Usage>, groups: seq<seq<Piece>>) returns (kept: List<Usage>)
    requires data.Valid() && GroupsDefined(groups)
    modifies data, data.nodes
    ensures kept.Valid() && KeptBy(old(data.Values()), kept.Values(), Joined(groups))
    ensures (kept == data && kept.nodes == old(data.nodes)) || (fresh(kept) && fresh(kept.nodes))
  {
    hide KeptBy, Outside, AllDefined;
    kept := data;
    KeptByNone(data.Values());
    assert Joined(groups[..0]) == [];
    hide Joined;
    var i := 0;
    while i < |groups|
      invariant 0 <= i <= |groups| && kept.Valid() && KeptBy(old(data.Values()), kept.Values(), Joined(groups[..i]))
      invariant (kept == data && kept.nodes == old(data.nodes)) || (fresh(kept) && fresh(kept.nodes))
    {
      ghost var before := kept.Values();
      kept := FilterGroup(kept, groups[i]);
      KeptByMore(old(data.Values()), before, kept.Values(), Joined(groups[..i]), groups[i]);
      JoinedStep(groups, i);
      i := i + 1;
    }
    assert groups[..|groups|] == groups;
  }

  /** The records to restore: all those outside the ranges of all groups, in their order. */
  method FilterBackup(loaded: array<Usage>, groups: seq<seq<Piece>>) returns (data: array<Usage>, num: nat)
    requires GroupsDefined(groups)
    ensures num <= data.Length && KeptBy(loaded[..], data[..num], Joined(groups))
  {
    hide *;
    var list := ToList(loaded);
    list := FilterGroups(list, groups);
    data, num := loaded, loaded.Length;
    Lengths(list);
    ghost var kept := list.Values();
    AllKept(loaded[..], kept, Joined(groups));
    if num != list.length {
      num := list.length;
      data := ToArray(list);
    }
    assert data[..num] == kept;
  }

  lemma AllKept(all: seq<Usage>, kept: seq<Usage>, pieces: seq<Piece>)
    requires KeptBy(all, kept, pieces)
    ensures |kept| == |all| ==> kept == all
  {
    OutsideIsShorter(all, pieces);
  }
}

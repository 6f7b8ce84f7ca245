/** What a priority queue means: buckets of items by priority, and the one list they stand for,
    ordered by priority and, within a priority, by the time of arrival. */
module PriorityOrder {
  import opened LinkedLists
  import Sequences

  datatype Ranked<T> = Ranked(priority: nat, item: T)

  /** No priority has an empty bucket. */
  ghost predicate Filled<T>(b: map<nat, seq<T>>) {
    forall k | k in b :: b[k] != []
  }

  ghost function Least(s: set<nat>): (m: nat)
    requires s != {}
    ensures m in s && forall k | k in s :: m <= k
  {
    var x :| x in s;
    if s == {x} then x else
      var y := Least(s - {x});
      assert s == s - {x} + {x};
      if x < y then x else y
  }

  ghost function Tagged<T>(k: nat, s: seq<T>): (r: seq<Ranked<T>>)
    ensures |r| == |s| && forall i | 0 <= i < |s| :: r[i] == Ranked(k, s[i])
  {
    seq(|s|, i requires 0 <= i < |s| => Ranked(k, s[i]))
  }

  /** The queue from front to back. */
  ghost function Flat<T>(b: map<nat, seq<T>>): seq<Ranked<T>>
    decreases |b.Keys|
  {
    if b.Keys == {} then [] else
      var k := Least(b.Keys);
      Tagged(k, b[k]) + Flat(b - {k})
  }

  ghost function Added<T>(b: map<nat, seq<T>>, k: nat, x: T): map<nat, seq<T>> {
    b[k := (if k in b then b[k] else []) + [x]]
  }

  ghost function Removed<T>(b: map<nat, seq<T>>, k: nat, i: nat): map<nat, seq<T>>
    requires k in b && i < |b[k]|
  {
    if |b[k]| == 1 then b - {k} else b[k := Without(b[k], i)]
  }

  /** Behind everything that is at most as urgent-late as itself: the place of a new arrival. */
  ghost function Insert<T>(s: seq<Ranked<T>>, x: Ranked<T>): seq<Ranked<T>> {
    if s == [] then [x]
    else if s[0].priority <= x.priority then [s[0]] + Insert(s[1..], x)
    else [x] + s
  }

  ghost predicate Ordered<T>(s: seq<Ranked<T>>) {
    forall i, j | 0 <= i < j < |s| :: s[i].priority <= s[j].priority
  }

  ghost function OfPriority<T>(s: seq<Ranked<T>>, k: nat): seq<T> {
    if s == [] then [] else (if s[0].priority == k then [s[0].item] else []) + OfPriority(s[1..], k)
  }

  lemma {:induction false} OfPriorityAppend<T>(s: seq<Ranked<T>>, t: seq<Ranked<T>>, k: nat)
    ensures OfPriority(s + t, k) == OfPriority(s, k) + OfPriority(t, k)
  {
    if s == [] {
      assert s + t == t;
    } else {
      assert (s + t)[1..] == s[1..] + t;
      OfPriorityAppend(s[1..], t, k);
      Sequences.Associate(if s[0].priority == k then [s[0].item] else [], OfPriority(s[1..], k), OfPriority(t, k));
    }
  }

  lemma {:induction false} OfTagged<T>(j: nat, s: seq<T>, k: nat)
    ensures OfPriority(Tagged(j, s), k) == if j == k then s else []
  {
    if s != [] {
      assert Tagged(j, s)[1..] == Tagged(j, s[1..]);
      OfTagged(j, s[1..], k);
    }
  }

  lemma FlatStep<T>(b: map<nat, seq<T>>, k: nat)
    requires k in b && forall j | j in b :: k <= j
    ensures Flat(b) == Tagged(k, b[k]) + Flat(b - {k})
  {
    assert Least(b.Keys) == k;
  }

  /** The list is ordered, and its items of one priority are exactly that bucket. */
  lemma {:induction false} FlatIsOrdered<T>(b: map<nat, seq<T>>, bound: nat)
    requires forall k | k in b :: bound <= k
    ensures Ordered(Flat(b)) && forall i | 0 <= i < |Flat(b)| :: bound <= Flat(b)[i].priority
    decreases |b.Keys|
  {
    if b.Keys != {} {
      var k := Least(b.Keys);
      FlatIsOrdered(b - {k}, k);
    }
  }

  lemma {:induction false} FlatHasBuckets<T>(b: map<nat, seq<T>>, k: nat)
    ensures OfPriority(Flat(b), k) == if k in b then b[k] else []
    decreases |b.Keys|
  {
    if b.Keys != {} {
      var j := Least(b.Keys);
      FlatHasBuckets(b - {j}, k);
      OfPriorityAppend(Tagged(j, b[j]), Flat(b - {j}), k);
      OfTagged(j, b[j], k);
    }
  }

  lemma {:induction false} InsertBehind<T>(a: seq<Ranked<T>>, s: seq<Ranked<T>>, x: Ranked<T>)
    requires forall i | 0 <= i < |a| :: a[i].priority <= x.priority
    ensures Insert(a + s, x) == a + Insert(s, x)
  {
    if a == [] {
      assert a + s == s && a + Insert(s, x) == Insert(s, x);
    } else {
      assert (a + s)[1..] == a[1..] + s;
      InsertBehind(a[1..], s, x);
      assert [a[0]] + (a[1..] + Insert(s, x)) == a + Insert(s, x);
    }
  }

  lemma AddedFirst<T>(b: map<nat, seq<T>>, k: nat, x: T)
    requires forall j | j in b :: k < j
    ensures Flat(Added(b, k, x)) == [Ranked(k, x)] + Flat(b)
  {
    var c := Added(b, k, x);
    FlatStep(c, k);
    assert c - {k} == b;
    assert Tagged(k, [x]) == [Ranked(k, x)];
  }

  lemma InsertFirst<T>(b: map<nat, seq<T>>, k: nat, x: T)
    requires Filled(b) && forall j | j in b :: k < j
    ensures Insert(Flat(b), Ranked(k, x)) == [Ranked(k, x)] + Flat(b)
  {
    FlatIsOrdered(b, k + 1);
    if Flat(b) == [] { assert [Ranked(k, x)] + [] == [Ranked(k, x)]; }
  }

  /** A push puts the item behind all that are not of a higher priority value. */
  lemma {:induction false} FlatAdded<T>(b: map<nat, seq<T>>, k: nat, x: T)
    requires Filled(b)
    ensures Flat(Added(b, k, x)) == Insert(Flat(b), Ranked(k, x))
    decreases |b.Keys|
  {
    var r := Ranked(k, x);
    if b.Keys == {} || k < Least(b.Keys) {
      AddedFirst(b, k, x);
      InsertFirst(b, k, x);
    } else {
      var m := Least(b.Keys);
      var rest := b - {m};
      InsertBehind(Tagged(m, b[m]), Flat(rest), r);
      if k == m {
        AddedHere(b, k, x);
        InsertFirst(rest, k, x);
        Sequences.Associate(Tagged(m, b[m]), [r], Flat(rest));
      } else {
        AddedLater(b, m, k, x);
        FlatAdded(rest, k, x);
      }
    }
  }

  lemma AddedHere<T>(b: map<nat, seq<T>>, k: nat, x: T)
    requires b.Keys != {} && k == Least(b.Keys)
    ensures Flat(Added(b, k, x)) == Tagged(k, b[k]) + [Ranked(k, x)] + Flat(b - {k})
  {
    FlatStep(Added(b, k, x), k);
    assert Added(b, k, x) - {k} == b - {k};
    assert Tagged(k, b[k] + [x]) == Tagged(k, b[k]) + [Ranked(k, x)];
  }

  lemma AddedLater<T>(b: map<nat, seq<T>>, m: nat, k: nat, x: T)
    requires b.Keys != {} && m == Least(b.Keys) && m < k
    ensures Flat(Added(b, k, x)) == Tagged(m, b[m]) + Flat(Added(b - {m}, k, x))
  {
    FlatStep(Added(b, k, x), m);
    assert Added(b, k, x) - {m} == Added(b - {m}, k, x);
  }

  lemma TaggedWithout<T>(k: nat, s: seq<T>, i: nat, rest: seq<Ranked<T>>)
    requires i < |s|
    ensures Without(Tagged(k, s) + rest, i) == Tagged(k, Without(s, i)) + rest
  {
  }

  lemma WithoutLater<T>(a: seq<T>, s: seq<T>, i: nat)
    requires i < |s|
    ensures Without(a + s, |a| + i) == a + Without(s, i) && (a + s)[|a| + i] == s[i]
  {
  }

  lemma RemovedFirst<T>(b: map<nat, seq<T>>, k: nat, i: nat)
    requires k in b && i < |b[k]| && k == Least(b.Keys)
    ensures Flat(Removed(b, k, i)) == Tagged(k, Without(b[k], i)) + Flat(b - {k})
  {
    var c := Removed(b, k, i);
    if |b[k]| == 1 {
      assert Tagged(k, Without(b[k], i)) == [];
      assert [] + Flat(c) == Flat(c);
    } else {
      FlatStep(c, k);
      assert c - {k} == b - {k};
    }
  }

  lemma RemovedLater<T>(b: map<nat, seq<T>>, m: nat, k: nat, i: nat)
    requires k in b && i < |b[k]| && m == Least(b.Keys) && m != k
    ensures Flat(Removed(b, k, i)) == Tagged(m, b[m]) + Flat(Removed(b - {m}, k, i))
  {
    var c := Removed(b, k, i);
    FlatStep(c, m);
    assert c - {m} == Removed(b - {m}, k, i);
  }

  /** Taking an item out of its bucket takes just that item out of the list. */
  lemma {:induction false} FlatRemoved<T>(b: map<nat, seq<T>>, k: nat, i: nat) returns (j: nat)
    requires Filled(b) && k in b && i < |b[k]|
    ensures j < |Flat(b)| && Flat(b)[j] == Ranked(k, b[k][i]) && Flat(Removed(b, k, i)) == Without(Flat(b), j)
    ensures i == 0 && k == Least(b.Keys) ==> j == 0
    decreases |b.Keys|
  {
    var m := Least(b.Keys);
    assert Flat(b) == Tagged(m, b[m]) + Flat(b - {m}) && Filled(b - {m});
    hide *;
    if k == m {
      j := i;
      RemovedFirst(b, k, i);
      TaggedWithout(k, b[k], i, Flat(b - {k}));
    } else {
      RemovedLater(b, m, k, i);
      j := FlatRemoved(b - {m}, k, i);
      WithoutLater(Tagged(m, b[m]), Flat(b - {m}), j);
      j := |b[m]| + j;
    }
  }

  /** Pushes one after the other. */
  ghost function InsertAll<T>(s: seq<Ranked<T>>): seq<Ranked<T>> {
    if s == [] then [] else Insert(InsertAll(s[..|s| - 1]), s[|s| - 1])
  }

  lemma {:induction false} InsertItems<T>(s: seq<Ranked<T>>, x: Ranked<T>)
    ensures multiset(Insert(s, x)) == multiset(s) + multiset{x} && |Insert(s, x)| == |s| + 1
  {
    if s != [] {
      assert s == [s[0]] + s[1..];
      if s[0].priority <= x.priority { InsertItems(s[1..], x); }
    }
  }

  lemma {:induction false} InsertOrdered<T>(s: seq<Ranked<T>>, x: Ranked<T>)
    requires Ordered(s)
    ensures Ordered(Insert(s, x))
  {
    if s != [] && s[0].priority <= x.priority {
      var r := Insert(s[1..], x);
      InsertOrdered(s[1..], x);
      InsertItems(s[1..], x);
      forall i | 0 <= i < |r| ensures s[0].priority <= r[i].priority {
        assert r[i] in multiset(r);
        assert r[i] in s[1..] || r[i] == x;
      }
    }
  }

  /** A new item comes last among those of its priority, and the others keep their order. */
  lemma {:induction false} InsertOfPriority<T>(s: seq<Ranked<T>>, x: Ranked<T>, k: nat)
    requires Ordered(s)
    ensures OfPriority(Insert(s, x), k) == OfPriority(s, k) + if x.priority == k then [x.item] else []
  {
    if s != [] && s[0].priority <= x.priority {
      InsertOfPriority(s[1..], x, k);
      assert ([s[0]] + Insert(s[1..], x))[1..] == Insert(s[1..], x);
    } else {
      assert ([x] + s)[1..] == s;
      if x.priority == k { AllBehind(s, k); }
    }
  }

  lemma {:induction false} AllBehind<T>(s: seq<Ranked<T>>, k: nat)
    requires forall i | 0 <= i < |s| :: s[i].priority > k
    ensures OfPriority(s, k) == []
  {
    if s != [] { AllBehind(s[1..], k); }
  }

  /** Pushing a list and draining the queue is a stable sort of the list. */
  lemma {:induction false} StableSort<T>(s: seq<Ranked<T>>, k: nat)
    ensures Ordered(InsertAll(s)) && multiset(InsertAll(s)) == multiset(s)
    ensures OfPriority(InsertAll(s), k) == OfPriority(s, k)
  {
    if s != [] {
      var front, x := s[..|s| - 1], s[|s| - 1];
      assert s == front + [x];
      StableSort(front, k);
      InsertItems(InsertAll(front), x);
      InsertOrdered(InsertAll(front), x);
      InsertOfPriority(InsertAll(front), x, k);
      OfPriorityAppend(front, [x], k);
    }
  }
}

/** What is built on the map: smallest and largest entries, the sorted listings, and destruction,
    which drains the values in the order of their keys. Also how high a map can be. */
module MapWalks {
  import opened Wrappers
  import opened AvlTree
  import opened LongMaps

  function Fib(n: nat): nat {
    if n < 2 then n else Fib(n - 1) + Fib(n - 2)
  }

  lemma {:induction false} FibGrows(n: nat)
    ensures Fib(n) <= Fib(n + 1)
  {
    if n >= 2 { FibGrows(n - 1); FibGrows(n - 2); }
  }

  /** A balanced tree of height h holds at least Fib(h + 2) - 1 nodes. */
  lemma {:induction false} FewNodesAreLow<V>(t: Tree<V>)
    requires Avl(t)
    ensures Size(t) + 1 >= Fib(Height(t) + 2)
  {
    if t.Node? {
      FewNodesAreLow(t.left);
      FewNodesAreLow(t.right);
      FibStep(Height(t.left), Height(t.right), Size(t.left), Size(t.right));
    }
  }

  /** A map of n entries is searched in k steps only if n + 1 >= Fib(k + 2). */
  lemma LongMapsAreLow<V>(m: LongMap<V>)
    requires m.Valid()
    ensures m.numElements + 1 >= Fib(Height(m.tree) + 2)
  {
    FewNodesAreLow(m.tree);
  }

  lemma FibStep(l: nat, r: nat, a: nat, b: nat)
    requires -1 <= r - l <= 1 && a + 1 >= Fib(l + 2) && b + 1 >= Fib(r + 2)
    ensures a + 1 + b + 1 >= Fib(1 + Max(l, r) + 2)
  {
    var h := 1 + Max(l, r);
    assert Fib(h + 2) == Fib(h + 1) + Fib(h);
    FibGrows(h);
  }

  lemma {:induction false} EntryOf<V>(s: seq<Entry<V>>, key: nat)
    requires Sorted(s)
    ensures key in MapOf(s) ==> exists i | 0 <= i < |s| :: s[i] == Entry(key, MapOf(s)[key])
    ensures forall i | 0 <= i < |s| :: s[i].key == key ==> key in MapOf(s) && MapOf(s)[key] == s[i].value
  {
    if s != [] {
      var front := s[..|s| - 1];
      EntryOf(front, key);
      if key in MapOf(s) && key != s[|s| - 1].key {
        var i :| 0 <= i < |front| && front[i] == Entry(key, MapOf(front)[key]);
        assert s[i] == front[i];
      }
      if key == s[|s| - 1].key { assert s[|s| - 1] == Entry(key, MapOf(s)[key]); }
      forall i | 0 <= i < |s| && s[i].key == key ensures key in MapOf(s) && MapOf(s)[key] == s[i].value {
        if i < |front| { assert front[i] == s[i]; }
      }
    }
  }

  /** The contents determine the ordered list of entries. */
  lemma {:induction false} OrderIsUnique<V>(s: seq<Entry<V>>, t: seq<Entry<V>>)
    requires Sorted(s) && Sorted(t) && MapOf(s) == MapOf(t)
    ensures s == t
  {
    MapSize(s);
    MapSize(t);
    if s != [] {
      var x, y := s[|s| - 1], t[|t| - 1];
      EntryOf(s, x.key);
      EntryOf(s, y.key);
      EntryOf(t, x.key);
      EntryOf(t, y.key);
      assert x == y;
      SameFronts(s, t);
      OrderIsUnique(s[..|s| - 1], t[..|t| - 1]);
      assert s == s[..|s| - 1] + [x] && t == t[..|t| - 1] + [x];
    }
  }

  lemma SameFronts<V>(s: seq<Entry<V>>, t: seq<Entry<V>>)
    requires Sorted(s) && Sorted(t) && s != [] && t != [] && s[|s| - 1] == t[|t| - 1] && MapOf(s) == MapOf(t)
    ensures MapOf(s[..|s| - 1]) == MapOf(t[..|t| - 1])
  {
    var a, b, x := s[..|s| - 1], t[..|t| - 1], s[|s| - 1];
    MapSkips(a, x.key);
    MapSkips(b, x.key);
    AddThenDrop(MapOf(a), x.key, x.value);
    AddThenDrop(MapOf(b), x.key, x.value);
  }

  lemma WithoutFirst<V>(s: seq<Entry<V>>)
    requires Sorted(s) && s != []
    ensures MapOf(s[1..]) == MapOf(s) - {s[0].key} && Sorted(s[1..])
  {
    var b := s[1..];
    assert Between([], s[0].key, b);
    MapWith([], s[0], b);
    assert [] + [s[0]] + b == s && [] + b == b;
    AddThenDrop(MapOf(b), s[0].key, s[0].value);
  }

  method GetSmallest<V>(m: LongMap<V>) returns (entry: Option<Entry<V>>)
    requires m.Valid()
    ensures entry == if m.Contents() == map[] then None else Some(InOrder(m.tree)[0])
    ensures entry.Some? ==> forall k | k in m.Contents() :: entry.value.key <= k
    ensures entry.Some? ==> entry.value.key in m.Contents() && m.Contents()[entry.value.key] == entry.value.value
  {
    entry := None;
    if m.root != null {
      var next := m.root;
      ghost var rest: seq<Entry<V>>, t := [], m.tree;
      assert InOrder(m.tree) + [] == InOrder(m.tree);
      while true
        invariant t.Node? && next == t.ref && Linked(next, t) && Objs(t) <= m.Repr
        invariant InOrder(m.tree) == InOrder(t) + rest
        decreases t
      {
        assert Linked(next.left, t.left);
        if next.left == null { break; }
        rest := [Entry(t.key, t.value)] + InOrder(t.right) + rest;
        next, t := next.left, t.left;
      }
      entry := Some(Entry(next.key, next.value));
      assert InOrder(t) == [] + [entry.value] + InOrder(t.right);
    }
    MapSize(InOrder(m.tree));
    SizeIsLength(m.tree);
    if entry.Some? { EntryOf(InOrder(m.tree), entry.value.key); }
    forall k | k in m.Contents() && entry.Some? ensures entry.value.key <= k {
      ghost var s := InOrder(m.tree);
      EntryOf(s, k);
      ghost var i :| 0 <= i < |s| && s[i] == Entry(k, MapOf(s)[k]);
      assert s[0].key <= s[i].key;
    }
  }

  method RemoveSmallest<V>(m: LongMap<V>) returns (removed: Option<V>)
    requires m.Valid()
    modifies m, m.Repr
    ensures m.Valid() && m.Repr <= old(m.Repr)
    ensures if old(m.Contents()) == map[] then removed == None && m.Contents() == map[]
            else removed == Some(old(InOrder(m.tree))[0].value) && InOrder(m.tree) == old(InOrder(m.tree))[1..]
  {
    var entry := GetSmallest(m);
    MapSize(InOrder(m.tree));
    if entry.None? { return None; }
    ghost var s := InOrder(m.tree);
    WithoutFirst(s);
    EntryOf(s, s[0].key);
    removed := m.RemoveElement(entry.value.key);
    OrderIsUnique(InOrder(m.tree), s[1..]);
  }

  ghost function Values<V>(s: seq<Entry<V>>): seq<V> {
    seq(|s|, i requires 0 <= i < |s| => s[i].value)
  }

  /** What is left of the list `all` after the first `n`. */
  ghost predicate Drained<V>(all: seq<Entry<V>>, values: seq<V>, rest: seq<Entry<V>>) {
    |values| <= |all| && rest == all[|values|..] && values == Values(all[..|values|])
  }

  lemma DrainedOne<V>(all: seq<Entry<V>>, values: seq<V>, rest: seq<Entry<V>>)
    requires Drained(all, values, rest) && rest != []
    ensures Drained(all, values + [rest[0].value], rest[1..])
  {
    var n := |values|;
    assert all[..n + 1] == all[..n] + [all[n]];
  }

  /** The size field, the contents and the ordered list tell whether the map is empty. */
  lemma Counts<V>(m: LongMap<V>)
    requires m.Valid()
    ensures m.numElements == |InOrder(m.tree)| == |m.Contents()|
  {
    SizeIsLength(m.tree);
    MapSize(InOrder(m.tree));
  }

  /** Drains the map; the values come out in ascending order of their keys. */
  method Destroy<V>(m: LongMap<V>) returns (values: seq<V>)
    requires m.Valid()
    modifies m, m.Repr
    ensures m.Valid() && m.Contents() == map[] && values == Values(old(InOrder(m.tree)))
  {
    ghost var all := InOrder(m.tree);
    values := [];
    assert all[..0] == [] && all[0..] == all;
    assert Values(all[..0]) == [];
    assert Drained(all, values, InOrder(m.tree));
    hide *;
    while m.numElements > 0
      invariant m.Valid() && m.Repr <= old(m.Repr)
      invariant Drained(all, values, InOrder(m.tree))
      decreases m.numElements
    {
      Counts(m);
      DrainedOne(all, values, InOrder(m.tree));
      var value := RemoveSmallest(m);
      values := values + [value.value];
      Counts(m);
    }
    Counts(m);
    AllDrained(all, values);
  }

  lemma AllDrained<V>(all: seq<Entry<V>>, values: seq<V>)
    requires Drained(all, values, [])
    ensures values == Values(all)
  {
    assert all[..|all|] == all;
  }

  ghost function Keys<V>(s: seq<Entry<V>>): seq<nat> {
    seq(|s|, i requires 0 <= i < |s| => s[i].key)
  }

  /** Writes the keys of a subtree from index `at` on. */
  method SortedNodeKeys<V>(node: MapNode?<V>, keys: array<nat>, at: nat, ghost t: Tree<V>, ghost nodes: set<object>)
    returns (next: nat)
    requires Linked(node, t) && at + Size(t) <= keys.Length && Objs(t) <= nodes && keys !in nodes
    modifies keys
    ensures next == at + Size(t) && |InOrder(t)| == Size(t)
    ensures keys[..next] == old(keys[..at]) + Keys(InOrder(t))
    decreases t
  {
    hide *;
    next := at;
    SizeIsLength(t);
    NodeParts(node, t);
    if node != null {
      ghost var l, r := t.left, t.right;
      next := SortedNodeKeys(node.left, keys, next, l, nodes);
      keys[next] := node.key;
      assert keys[..next + 1] == keys[..next] + [t.key];
      next := SortedNodeKeys(node.right, keys, next + 1, r, nodes);
      KeysTogether(old(keys[..at]), l, t.key, t, r);
    } else {
      assert keys[..at] + [] == keys[..at];
    }
  }

  /** What a node and the ghost tree say about each other. */
  lemma NodeParts<V>(node: MapNode?<V>, t: Tree<V>)
    requires Linked(node, t)
    ensures node == null <==> t.Leaf?
    ensures t.Leaf? ==> Size(t) == 0 && Keys(InOrder(t)) == []
    ensures t.Node? ==> node.key == t.key && Linked(node.left, t.left) && Linked(node.right, t.right) &&
                        Size(t) == Size(t.left) + 1 + Size(t.right) && Objs(t.left) <= Objs(t) &&
                        Objs(t.right) <= Objs(t)
  {
  }

  lemma KeysTogether<V>(before: seq<nat>, l: Tree<V>, key: nat, t: Tree<V>, r: Tree<V>)
    requires t.Node? && t.left == l && t.right == r && t.key == key
    ensures before + Keys(InOrder(l)) + [key] + Keys(InOrder(r)) == before + Keys(InOrder(t))
  {
    assert Keys(InOrder(t)) == Keys(InOrder(l)) + [key] + Keys(InOrder(r));
  }

  method GetSortedKeys<V>(m: LongMap<V>) returns (keys: array<nat>)
    requires m.Valid()
    ensures fresh(keys) && keys[..] == Keys(InOrder(m.tree))
  {
    keys := new nat[m.numElements];
    SizeIsLength(m.tree);
    hide *;
    var n := SortedNodeKeys(m.root, keys, 0, m.tree, m.Repr);
    assert keys[..] == keys[..n] == Keys(InOrder(m.tree));
  }

  /** The listing of the keys: strictly ascending, and exactly the keys of the map. */
  lemma KeysOf<V>(s: seq<Entry<V>>)
    requires Sorted(s)
    ensures forall i, j | 0 <= i < j < |s| :: Keys(s)[i] < Keys(s)[j]
    ensures forall k :: k in Keys(s) <==> k in MapOf(s)
    ensures |Keys(s)| == |s|
  {
    forall k ensures k in Keys(s) <==> k in MapOf(s) {
      EntryOf(s, k);
      if k in Keys(s) {
        var i :| 0 <= i < |s| && Keys(s)[i] == k;
        assert s[i].key == k;
      }
      if k in MapOf(s) {
        var i :| 0 <= i < |s| && s[i] == Entry(k, MapOf(s)[k]);
        assert Keys(s)[i] == k;
      }
    }
  }
}

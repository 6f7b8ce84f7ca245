/** AVL trees with stored balance factors, as values that mirror the nodes of a map in the heap:
    rotations, rebalancing, and paths from the root to a subtree. */
module AvlTree {
  import Sequences

  /** A node of the map; `balance` is the height of the right subtree minus that of the left. */
  class MapNode<V> {
    var key: nat
    var value: V
    var balance: int
    var left: MapNode?<V>
    var right: MapNode?<V>

    constructor (key: nat, value: V)
      ensures this.key == key && this.value == value && balance == 0 && left == null && right == null
    {
      this.key, this.value, balance, left, right := key, value, 0, null, null;
    }
  }

  /** What a subtree of the heap looks like. */
  datatype Tree<V> = Leaf | Node(ref: MapNode<V>, left: Tree<V>, key: nat, value: V, bal: int, right: Tree<V>)

  datatype Entry<V> = Entry(key: nat, value: V)

  ghost function Objs<V>(t: Tree<V>): set<object> {
    if t.Leaf? then {} else {t.ref} + Objs(t.left) + Objs(t.right)
  }

  /** No node occurs twice. */
  ghost predicate Distinct<V>(t: Tree<V>) {
    t.Node? ==>
      t.ref !in Objs(t.left) && t.ref !in Objs(t.right) && Objs(t.left) !! Objs(t.right) &&
      Distinct(t.left) && Distinct(t.right)
  }

  /** The heap holds the tree `t` at pointer `p`. */
  ghost predicate Linked<V>(p: MapNode?<V>, t: Tree<V>)
    reads Objs(t)
  {
    match t
    case Leaf => p == null
    case Node(ref, left, key, value, bal, right) =>
      p == ref && ref.key == key && ref.value == value && ref.balance == bal &&
      Linked(ref.left, left) && Linked(ref.right, right)
  }

  function Max(a: nat, b: nat): nat {
    if a < b then b else a
  }

  ghost function Height<V>(t: Tree<V>): nat {
    if t.Leaf? then 0 else 1 + Max(Height(t.left), Height(t.right))
  }

  ghost function Size<V>(t: Tree<V>): nat {
    if t.Leaf? then 0 else Size(t.left) + 1 + Size(t.right)
  }

  ghost function InOrder<V>(t: Tree<V>): seq<Entry<V>> {
    if t.Leaf? then [] else InOrder(t.left) + [Entry(t.key, t.value)] + InOrder(t.right)
  }

  /** Every stored balance is exact and within -1..1. */
  ghost predicate Avl<V>(t: Tree<V>) {
    t.Node? ==>
      Avl(t.left) && Avl(t.right) && t.bal == Height(t.right) - Height(t.left) && -1 <= t.bal <= 1
  }

  ghost predicate Sorted<V>(s: seq<Entry<V>>) {
    forall i, j | 0 <= i < j < |s| :: s[i].key < s[j].key
  }

  lemma {:induction false} SizeIsLength<V>(t: Tree<V>)
    ensures |InOrder(t)| == Size(t)
  {
    if t.Node? { SizeIsLength(t.left); SizeIsLength(t.right); }
  }

  // ---------- rotations and rebalancing ----------

  ghost function RotateRight<V>(t: Tree<V>): Tree<V>
    requires t.Node? && t.left.Node?
  {
    t.left.(right := t.(left := t.left.right))
  }

  ghost function RotateLeft<V>(t: Tree<V>): Tree<V>
    requires t.Node? && t.right.Node?
  {
    t.right.(left := t.(right := t.right.left))
  }

  ghost function SetBalances<V>(t: Tree<V>, left: int, right: int, own: int): Tree<V>
    requires t.Node? && t.left.Node? && t.right.Node?
  {
    t.(left := t.left.(bal := left), right := t.right.(bal := right), bal := own)
  }

  ghost function FixLeft<V>(t: Tree<V>): Tree<V>
    requires t.Node? && t.left.Node? && (t.left.bal > 0 ==> t.left.right.Node?)
  {
    if t.left.bal < 0 then var r := RotateRight(t); r.(right := r.right.(bal := 0), bal := 0)
    else if t.left.bal == 0 then var r := RotateRight(t); r.(right := r.right.(bal := -1), bal := 1)
    else
      var r := RotateRight(t.(left := RotateLeft(t.left)));
      SetBalances(r, if r.bal > 0 then -1 else 0, if r.bal < 0 then 1 else 0, 0)
  }

  ghost function FixRight<V>(t: Tree<V>): Tree<V>
    requires t.Node? && t.right.Node? && (t.right.bal < 0 ==> t.right.left.Node?)
  {
    if t.right.bal > 0 then var r := RotateLeft(t); r.(left := r.left.(bal := 0), bal := 0)
    else if t.right.bal == 0 then var r := RotateLeft(t); r.(left := r.left.(bal := 1), bal := -1)
    else
      var r := RotateLeft(t.(right := RotateRight(t.right)));
      SetBalances(r, if r.bal > 0 then -1 else 0, if r.bal < 0 then 1 else 0, 0)
  }

  /** The subtrees of `t` are AVL trees and its balance will be exact after the update. */
  ghost predicate Pending<V>(t: Tree<V>, delta: int) {
    t.Node? && Avl(t.left) && Avl(t.right) && -1 <= t.bal <= 1 && -1 <= delta <= 1 &&
    t.bal + delta == Height(t.right) - Height(t.left)
  }

  ghost function Rebalanced<V>(t: Tree<V>, delta: int): (r: Tree<V>)
    requires Pending(t, delta)
    ensures r.Node?
  {
    var u := t.(bal := t.bal + delta);
    if u.bal < -1 then FixLeft(u) else if u.bal > 1 then FixRight(u) else u
  }

  lemma Assoc<T>(a: seq<T>, p: seq<T>, b: seq<T>, q: seq<T>, c: seq<T>)
    ensures (a + p + b) + q + c == a + p + (b + q + c)
  {
  }

  /** What a rotation keeps: the entries in order, the nodes, and that none occurs twice. */
  ghost predicate SameNodes<V>(t: Tree<V>, u: Tree<V>) {
    InOrder(t) == InOrder(u) && Objs(t) == Objs(u) && (Distinct(t) <==> Distinct(u))
  }

  lemma RotateRightKeeps<V>(t: Tree<V>)
    requires t.Node? && t.left.Node?
    ensures SameNodes(t, RotateRight(t))
  {
    var l := t.left;
    Assoc(InOrder(l.left), [Entry(l.key, l.value)], InOrder(l.right), [Entry(t.key, t.value)], InOrder(t.right));
    var r := RotateRight(t);
    assert r.right == t.(left := l.right);
    assert Objs(r.right) == {t.ref} + Objs(l.right) + Objs(t.right);
    assert InOrder(r.right) == InOrder(l.right) + [Entry(t.key, t.value)] + InOrder(t.right);
  }

  lemma RotateLeftKeeps<V>(t: Tree<V>)
    requires t.Node? && t.right.Node?
    ensures SameNodes(t, RotateLeft(t))
  {
    var r := t.right;
    Assoc(InOrder(t.left), [Entry(t.key, t.value)], InOrder(r.left), [Entry(r.key, r.value)], InOrder(r.right));
    var u := RotateLeft(t);
    assert u.left == t.(right := r.left);
    assert Objs(u.left) == {t.ref} + Objs(t.left) + Objs(r.left);
    assert InOrder(u.left) == InOrder(t.left) + [Entry(t.key, t.value)] + InOrder(r.left);
  }

  lemma BalancesKeep<V>(t: Tree<V>, left: int, right: int, own: int)
    requires t.Node? && t.left.Node? && t.right.Node?
    ensures SameNodes(t, SetBalances(t, left, right, own))
    ensures SameNodes(t, t.(left := t.left.(bal := left), bal := own))
    ensures SameNodes(t, t.(right := t.right.(bal := right), bal := own))
  {
  }

  lemma ChildKeeps<V>(t: Tree<V>, u: Tree<V>)
    requires t.Node?
    ensures SameNodes(t.left, u) ==> SameNodes(t, t.(left := u))
    ensures SameNodes(t.right, u) ==> SameNodes(t, t.(right := u))
  {
  }

  lemma FixLeftKeeps<V>(t: Tree<V>)
    requires t.Node? && t.left.Node? && (t.left.bal > 0 ==> t.left.right.Node?)
    ensures SameNodes(t, FixLeft(t))
  {
    if t.left.bal <= 0 {
      RotateRightKeeps(t);
      var r := RotateRight(t);
      if r.left.Node? { BalancesKeep(r, 0, 0, 0); }
    } else {
      RotateLeftKeeps(t.left);
      ChildKeeps(t, RotateLeft(t.left));
      var u := t.(left := RotateLeft(t.left));
      RotateRightKeeps(u);
      var r := RotateRight(u);
      BalancesKeep(r, if r.bal > 0 then -1 else 0, if r.bal < 0 then 1 else 0, 0);
    }
  }

  lemma FixRightKeeps<V>(t: Tree<V>)
    requires t.Node? && t.right.Node? && (t.right.bal < 0 ==> t.right.left.Node?)
    ensures SameNodes(t, FixRight(t))
  {
    if t.right.bal >= 0 {
      RotateLeftKeeps(t);
      var r := RotateLeft(t);
      if r.right.Node? { BalancesKeep(r, 0, 0, 0); }
    } else {
      RotateRightKeeps(t.right);
      ChildKeeps(t, RotateRight(t.right));
      var u := t.(right := RotateRight(t.right));
      RotateLeftKeeps(u);
      var r := RotateLeft(u);
      BalancesKeep(r, if r.bal > 0 then -1 else 0, if r.bal < 0 then 1 else 0, 0);
    }
  }

  /** Rebalancing keeps the entries, their order and the nodes. */
  lemma RebalanceKeeps<V>(t: Tree<V>, delta: int)
    requires Pending(t, delta)
    ensures SameNodes(t, Rebalanced(t, delta))
  {
    var u := t.(bal := t.bal + delta);
    assert SameNodes(t, u);
    if u.bal < -1 { FixLeftKeeps(u); } else if u.bal > 1 { FixRightKeeps(u); }
  }

  lemma FixLeftIsAvl<V>(t: Tree<V>)
    requires t.Node? && Avl(t.left) && Avl(t.right) && Height(t.left) == Height(t.right) + 2
    ensures var r := FixLeft(t); Avl(r) && Height(r) == (if r.bal != 0 then Height(t) else Height(t) - 1)
  {
    if t.left.bal > 0 {
      FixLeftTwice(t);
    } else {
      var l, r := t.left, FixLeft(t);
      assert Avl(l.left) && Avl(l.right) && Height(l.left) == Height(t.right) + 1;
      assert r.left == l.left && r.right.left == l.right && r.right.right == t.right;
      assert Avl(r.right);
    }
  }

  lemma FixLeftTwice<V>(t: Tree<V>)
    requires t.Node? && Avl(t.left) && Avl(t.right) && Height(t.left) == Height(t.right) + 2 && t.left.bal > 0
    ensures var r := FixLeft(t); Avl(r) && r.bal == 0 && Height(r) == Height(t) - 1
  {
    var l, m := t.left, t.left.right;
    assert Avl(m) && Avl(l.left) && Avl(m.left) && Avl(m.right);
    var r := FixLeft(t);
    assert r.left.left == l.left && r.left.right == m.left && r.right.left == m.right && r.right.right == t.right;
    assert Avl(r.left) && Avl(r.right);
  }

  lemma FixRightIsAvl<V>(t: Tree<V>)
    requires t.Node? && Avl(t.left) && Avl(t.right) && Height(t.right) == Height(t.left) + 2
    ensures var r := FixRight(t); Avl(r) && Height(r) == (if r.bal != 0 then Height(t) else Height(t) - 1)
  {
    if t.right.bal < 0 {
      FixRightTwice(t);
    } else {
      var l, r := t.right, FixRight(t);
      assert Avl(l.left) && Avl(l.right) && Height(l.right) == Height(t.left) + 1;
      assert r.right == l.right && r.left.right == l.left && r.left.left == t.left;
      assert Avl(r.left);
    }
  }

  lemma FixRightTwice<V>(t: Tree<V>)
    requires t.Node? && Avl(t.left) && Avl(t.right) && Height(t.right) == Height(t.left) + 2 && t.right.bal < 0
    ensures var r := FixRight(t); Avl(r) && r.bal == 0 && Height(r) == Height(t) - 1
  {
    var l, m := t.right, t.right.left;
    assert Avl(m) && Avl(l.right) && Avl(m.left) && Avl(m.right);
    var r := FixRight(t);
    assert r.left.left == t.left && r.left.right == m.left && r.right.left == m.right && r.right.right == l.right;
    assert Avl(r.left) && Avl(r.right);
  }

  /** Rebalancing yields an AVL tree; when it had to restructure, the tree is lower by one
      exactly if the new balance is zero. */
  lemma RebalanceIsAvl<V>(t: Tree<V>, delta: int)
    requires Pending(t, delta)
    ensures var r := Rebalanced(t, delta);
            Avl(r) && (-1 <= t.bal + delta <= 1 ==> r.bal == t.bal + delta) &&
            Height(r) == (if -1 <= t.bal + delta <= 1 || r.bal != 0 then Height(t) else Height(t) - 1)
  {
    var u := t.(bal := t.bal + delta);
    if u.bal < -1 { FixLeftIsAvl(u); } else if u.bal > 1 { FixRightIsAvl(u); }
  }

  // ---------- paths ----------

  /** One step of a path from the root: a node, the side taken, and the other subtree. */
  datatype Frame<V> = Frame(ref: MapNode<V>, left: bool, key: nat, value: V, bal: int, sib: Tree<V>)

  ghost function Step<V>(f: Frame<V>, t: Tree<V>): Tree<V> {
    if f.left then Node(f.ref, t, f.key, f.value, f.bal, f.sib) else Node(f.ref, f.sib, f.key, f.value, f.bal, t)
  }

  /** The whole tree: subtree `t` under path `fs`. */
  ghost function Plug<V>(fs: seq<Frame<V>>, t: Tree<V>): Tree<V> {
    if fs == [] then t else Plug(fs[..|fs| - 1], Step(fs[|fs| - 1], t))
  }

  /** The entries left and right of the subtree under `fs`. */
  ghost function Before<V>(fs: seq<Frame<V>>): seq<Entry<V>> {
    if fs == [] then [] else
      var f, front := fs[|fs| - 1], Before(fs[..|fs| - 1]);
      if f.left then front else front + InOrder(f.sib) + [Entry(f.key, f.value)]
  }

  ghost function After<V>(fs: seq<Frame<V>>): seq<Entry<V>> {
    if fs == [] then [] else
      var f, back := fs[|fs| - 1], After(fs[..|fs| - 1]);
      if f.left then [Entry(f.key, f.value)] + InOrder(f.sib) + back else back
  }

  lemma RegroupLeft<T>(x: seq<T>, i: seq<T>, e: seq<T>, y: seq<T>, z: seq<T>)
    ensures x + (i + e + y) + z == x + i + (e + y + z)
  {
  }

  lemma RegroupRight<T>(x: seq<T>, y: seq<T>, e: seq<T>, i: seq<T>, z: seq<T>)
    ensures x + (y + e + i) + z == (x + y + e) + i + z
  {
  }

  lemma {:induction false} PlugOrder<V>(fs: seq<Frame<V>>, t: Tree<V>)
    ensures InOrder(Plug(fs, t)) == Before(fs) + InOrder(t) + After(fs)
  {
    if fs == [] {
      assert [] + InOrder(t) + [] == InOrder(t);
    } else {
      var f, front := fs[|fs| - 1], fs[..|fs| - 1];
      PlugOrder(front, Step(f, t));
      var e := [Entry(f.key, f.value)];
      if f.left {
        RegroupLeft(Before(front), InOrder(t), e, InOrder(f.sib), After(front));
      } else {
        RegroupRight(Before(front), InOrder(f.sib), e, InOrder(t), After(front));
      }
    }
  }

  /** The stored balance of `f` is exact for a child of height `h`. */
  ghost predicate FrameFits<V>(f: Frame<V>, h: nat) {
    Avl(f.sib) && -1 <= f.bal <= 1 &&
    f.bal == if f.left then Height(f.sib) - h else h - Height(f.sib)
  }

  /** All of the path is balanced for a subtree of height `h`. */
  ghost predicate PathFits<V>(fs: seq<Frame<V>>, h: nat) {
    fs == [] ||
    var f := fs[|fs| - 1];
    FrameFits(f, h) && PathFits(fs[..|fs| - 1], 1 + Max(h, Height(f.sib)))
  }

  lemma {:induction false} PlugAvl<V>(fs: seq<Frame<V>>, t: Tree<V>)
    ensures Avl(Plug(fs, t)) <==> Avl(t) && PathFits(fs, Height(t))
  {
    if fs != [] {
      var f := fs[|fs| - 1];
      PlugAvl(fs[..|fs| - 1], Step(f, t));
      assert Height(Step(f, t)) == 1 + Max(Height(t), Height(f.sib));
      assert Avl(Step(f, t)) <==> Avl(t) && FrameFits(f, Height(t));
    }
  }

  /** The height of the whole tree when the subtree under `fs` has height `h`. */
  ghost function HeightUnder<V>(fs: seq<Frame<V>>, h: nat): nat {
    if fs == [] then h else HeightUnder(fs[..|fs| - 1], 1 + Max(h, Height(fs[|fs| - 1].sib)))
  }

  lemma {:induction false} PlugHeight<V>(fs: seq<Frame<V>>, t: Tree<V>)
    ensures Height(Plug(fs, t)) == HeightUnder(fs, Height(t)) >= |fs| + Height(t)
  {
    if fs != [] { PlugHeight(fs[..|fs| - 1], Step(fs[|fs| - 1], t)); }
  }

  lemma {:induction false} PlugSplit<V>(fs: seq<Frame<V>>, xs: seq<Frame<V>>, t: Tree<V>)
    ensures Plug(fs + xs, t) == Plug(fs, Plug(xs, t))
    decreases |xs|
  {
    if xs == [] {
      assert fs + xs == fs;
    } else {
      var f, front := xs[|xs| - 1], xs[..|xs| - 1];
      assert (fs + xs)[..|fs + xs| - 1] == fs + front;
      PlugSplit(fs, front, Step(f, t));
    }
  }

  lemma {:induction false} FitsSplit<V>(fs: seq<Frame<V>>, xs: seq<Frame<V>>, h: nat)
    ensures PathFits(fs + xs, h) <==> PathFits(xs, h) && PathFits(fs, HeightUnder(xs, h))
    decreases |xs|
  {
    if xs == [] {
      assert fs + xs == fs;
    } else {
      var f, front := xs[|xs| - 1], xs[..|xs| - 1];
      assert (fs + xs)[..|fs + xs| - 1] == fs + front;
      FitsSplit(fs, front, 1 + Max(h, Height(f.sib)));
    }
  }

  /** A frame can be exchanged for one of another node with the same balance, side and sibling. */
  lemma FitsExchanged<V>(fs: seq<Frame<V>>, f: Frame<V>, g: Frame<V>, xs: seq<Frame<V>>, h: nat)
    requires f.left == g.left && f.bal == g.bal && f.sib == g.sib && PathFits(fs + [f] + xs, h)
    ensures PathFits(fs + [g] + xs, h)
  {
    FitsSplit(fs + [f], xs, h);
    FitsSplit(fs + [g], xs, h);
    var k := HeightUnder(xs, h);
    FitsLast(fs, f, k);
    FitsLast(fs, g, k);
  }

  lemma FitsLast<V>(fs: seq<Frame<V>>, f: Frame<V>, h: nat)
    ensures PathFits(fs + [f], h) <==> FrameFits(f, h) && PathFits(fs, 1 + Max(h, Height(f.sib)))
  {
    assert (fs + [f])[..|fs|] == fs && (fs + [f])[|fs|] == f;
  }

  function Delta<V>(f: Frame<V>): int {
    if f.left then -1 else 1
  }

  /** A subtree that grew by one: its own balance is not zero, unless it is a new leaf node. */
  ghost predicate Grown<V>(t: Tree<V>) {
    t.Node? && Avl(t) && (t.bal != 0 || Height(t) == 1)
  }

  /** One step up after an insertion: either the growth is absorbed, and the new balance is
      zero, or it goes on. Restructuring always absorbs it. */
  lemma GrowStep<V>(f: Frame<V>, t: Tree<V>)
    requires Grown(t) && FrameFits(f, Height(t) - 1)
    ensures Pending(Step(f, t), Delta(f))
    ensures var r, h := Rebalanced(Step(f, t), Delta(f)), 1 + Max(Height(t) - 1, Height(f.sib));
            Avl(r) && (if r.bal == 0 then Height(r) == h else Grown(r) && Height(r) == h + 1) &&
            (!(-1 <= f.bal + Delta(f) <= 1) ==> r.bal == 0)
  {
    assert Height(Step(f, t)) == 1 + Max(Height(t), Height(f.sib));
    RebalanceIsAvl(Step(f, t), Delta(f));
  }

  lemma ShrinkPending<V>(f: Frame<V>, t: Tree<V>)
    requires Avl(t) && FrameFits(f, Height(t) + 1)
    ensures Pending(Step(f, t), -Delta(f)) && Height(Step(f, t)) == 1 + Max(Height(t), Height(f.sib))
  {
  }

  lemma ShrinkHeights<V>(f: Frame<V>, t: Tree<V>, r: Tree<V>)
    requires FrameFits(f, Height(t) + 1) && r.Node?
    requires var b, h := f.bal - Delta(f), 1 + Max(Height(t), Height(f.sib));
             (-1 <= b <= 1 ==> r.bal == b) && Height(r) == (if -1 <= b <= 1 || r.bal != 0 then h else h - 1)
    ensures var h := 1 + Max(Height(t) + 1, Height(f.sib)); Height(r) == (if r.bal == 0 then h - 1 else h)
  {
  }

  /** One step up after a removal: if the new balance is zero the tree is lower by one, and
      otherwise its height is what it was. */
  lemma ShrinkStep<V>(f: Frame<V>, t: Tree<V>)
    requires Avl(t) && FrameFits(f, Height(t) + 1)
    ensures Pending(Step(f, t), -Delta(f))
    ensures var r, h := Rebalanced(Step(f, t), -Delta(f)), 1 + Max(Height(t) + 1, Height(f.sib));
            Avl(r) && Height(r) == (if r.bal == 0 then h - 1 else h)
  {
    ShrinkPending(f, t);
    var u, d := Step(f, t), -Delta(f);
    RebalanceIsAvl(u, d);
    ShrinkHeights(f, t, Rebalanced(u, d));
  }

  /** On the way up after an insertion, with the balance that was last stored: the subtree grew,
      unless that balance is zero. */
  ghost predicate Growing<V>(fs: seq<Frame<V>>, t: Tree<V>, balance: int) {
    Avl(t) && if balance == 0 then PathFits(fs, Height(t)) else Grown(t) && PathFits(fs, Height(t) - 1)
  }

  /** On the way up after a removal: the subtree shrank, if the balance that was last stored is zero. */
  ghost predicate Shrinking<V>(fs: seq<Frame<V>>, t: Tree<V>, balance: int) {
    Avl(t) && PathFits(fs, if balance == 0 then Height(t) + 1 else Height(t))
  }

  /** The height of the whole tree before the insertion. */
  ghost function HeightBefore<V>(fs: seq<Frame<V>>, t: Tree<V>, balance: int): nat
    requires Growing(fs, t, balance)
  {
    HeightUnder(fs, if balance == 0 then Height(t) else Height(t) - 1)
  }

  /** The subtree one step up, rebalanced for a growth (`op` 1) or shrinking (`op` -1) of `t`. */
  ghost function Climbed<V>(fs: seq<Frame<V>>, t: Tree<V>, op: int): (r: Tree<V>)
    requires fs != [] && Pending(Step(fs[|fs| - 1], t), op * Delta(fs[|fs| - 1]))
    ensures r.Node?
  {
    Rebalanced(Step(fs[|fs| - 1], t), op * Delta(fs[|fs| - 1]))
  }

  /** The node at the end of the path is out of balance after the update below it. */
  ghost predicate Restructures<V>(fs: seq<Frame<V>>, op: int)
    requires fs != []
  {
    var f := fs[|fs| - 1];
    !(-1 <= f.bal + op * Delta(f) <= 1)
  }

  lemma FitsUp<V>(fs: seq<Frame<V>>, k: nat)
    requires PathFits(fs, k) && fs != []
    ensures var f, front := fs[|fs| - 1], fs[..|fs| - 1];
            var h := 1 + Max(k, Height(f.sib));
            FrameFits(f, k) && PathFits(front, h) && HeightUnder(fs, k) == HeightUnder(front, h)
  {
  }

  lemma GrownIsNode<V>(t: Tree<V>)
    requires Grown(t)
    ensures Height(t) >= 1
  {
  }

  lemma GrownAbove<V>(front: seq<Frame<V>>, h: nat, r: Tree<V>)
    requires PathFits(front, h) && r.Node? && Avl(r)
    requires if r.bal == 0 then Height(r) == h else Grown(r) && Height(r) == h + 1
    ensures Growing(front, r, r.bal) && HeightBefore(front, r, r.bal) == HeightUnder(front, h)
  {
    hide PathFits, HeightUnder, Avl, Height, Grown;
  }

  lemma ShrunkAbove<V>(front: seq<Frame<V>>, h: nat, r: Tree<V>)
    requires PathFits(front, h) && r.Node? && Avl(r) && Height(r) == if r.bal == 0 then h - 1 else h
    ensures Shrinking(front, r, r.bal)
  {
    hide PathFits, Avl, Height;
  }

  lemma GrowUp<V>(fs: seq<Frame<V>>, t: Tree<V>, balance: int)
    requires Growing(fs, t, balance) && balance != 0 && fs != []
    ensures var f, front := fs[|fs| - 1], fs[..|fs| - 1];
            Pending(Step(f, t), 1 * Delta(f)) &&
            var r := Climbed(fs, t, 1);
            Growing(front, r, r.bal) && HeightBefore(front, r, r.bal) == HeightBefore(fs, t, balance) &&
            (Restructures(fs, 1) ==> r.bal == 0)
  {
    hide Rebalanced, PathFits, HeightUnder, Height, Avl, Step, Pending, FrameFits, Grown, Delta, Max;
    GrownIsNode(t);
    FitsUp(fs, Height(t) - 1);
    var f := fs[|fs| - 1];
    GrowStep(f, t);
    GrownAbove(fs[..|fs| - 1], 1 + Max(Height(t) - 1, Height(f.sib)), Climbed(fs, t, 1));
  }

  lemma ShrinkUp<V>(fs: seq<Frame<V>>, t: Tree<V>)
    requires Shrinking(fs, t, 0) && fs != []
    ensures var f, front := fs[|fs| - 1], fs[..|fs| - 1];
            Pending(Step(f, t), -1 * Delta(f)) && var r := Climbed(fs, t, -1); Shrinking(front, r, r.bal)
  {
    hide Rebalanced, PathFits, HeightUnder, Height, Avl, Step, Pending, FrameFits, Delta, Max;
    FitsUp(fs, Height(t) + 1);
    var f := fs[|fs| - 1];
    ShrinkStep(f, t);
    ShrunkAbove(fs[..|fs| - 1], 1 + Max(Height(t) + 1, Height(f.sib)), Climbed(fs, t, -1));
  }

  /** The way up ends at the root, or at the first balance that is zero. */
  lemma GrownAtLast<V>(fs: seq<Frame<V>>, t: Tree<V>, balance: int)
    requires Growing(fs, t, balance) && (fs == [] || balance == 0)
    ensures Avl(Plug(fs, t)) && (balance == 0 ==> Height(Plug(fs, t)) == HeightBefore(fs, t, balance))
  {
    PlugAvl(fs, t);
    PlugHeight(fs, t);
  }

  /** The way up ends at the root, or at the first balance that is not zero. */
  lemma ShrunkAtLast<V>(fs: seq<Frame<V>>, t: Tree<V>, balance: int)
    requires Shrinking(fs, t, balance) && (fs == [] || balance != 0)
    ensures Avl(Plug(fs, t))
  {
    PlugAvl(fs, t);
  }

  /** A step up keeps the entries and the nodes. */
  lemma ClimbKeeps<V>(fs: seq<Frame<V>>, t: Tree<V>, op: int)
    requires fs != [] && Pending(Step(fs[|fs| - 1], t), op * Delta(fs[|fs| - 1]))
    ensures InOrder(Plug(fs[..|fs| - 1], Climbed(fs, t, op))) == InOrder(Plug(fs, t))
  {
    var f, front := fs[|fs| - 1], fs[..|fs| - 1];
    RebalanceKeeps(Step(f, t), op * Delta(f));
    PlugOrder(front, Step(f, t));
    PlugOrder(front, Climbed(fs, t, op));
  }

  lemma NewNode<V>(node: MapNode<V>, e: Entry<V>)
    ensures var empty: Tree<V> := Leaf; Avl(empty) && Height(empty) == 0 && InOrder(empty) == [] && Objs(empty) == {}
    ensures var u := Node(node, Leaf, e.key, e.value, 0, Leaf);
            InOrder(u) == [e] && Grown(u) && Height(u) == 1 && Objs(u) == {node} && Distinct(u)
  {
    var empty: Tree<V> := Leaf;
    var u := Node(node, empty, e.key, e.value, 0, empty);
    assert InOrder(u) == InOrder(empty) + [e] + InOrder(empty);
    assert Height(u) == 1 + Max(Height(empty), Height(empty));
    assert Avl(empty) && Distinct(empty);
  }

  // ---------- the nodes of a path ----------

  ghost function PathObjs<V>(fs: seq<Frame<V>>): set<object> {
    if fs == [] then {} else PathObjs(fs[..|fs| - 1]) + {fs[|fs| - 1].ref} + Objs(fs[|fs| - 1].sib)
  }

  /** No node occurs twice on the path and beside it, nor in the set `below`. */
  ghost predicate PathApart<V>(fs: seq<Frame<V>>, below: set<object>) {
    fs == [] ||
    var f := fs[|fs| - 1];
    f.ref !in below && f.ref !in Objs(f.sib) && Objs(f.sib) !! below && Distinct(f.sib) &&
    PathApart(fs[..|fs| - 1], below + {f.ref} + Objs(f.sib))
  }

  lemma {:induction false} PathIsApart<V>(fs: seq<Frame<V>>, below: set<object>)
    requires PathApart(fs, below)
    ensures PathObjs(fs) !! below
  {
    if fs != [] {
      var f := fs[|fs| - 1];
      PathIsApart(fs[..|fs| - 1], below + {f.ref} + Objs(f.sib));
    }
  }

  lemma {:induction false} PathApartLess<V>(fs: seq<Frame<V>>, below: set<object>, less: set<object>)
    requires PathApart(fs, below) && less <= below
    ensures PathApart(fs, less)
  {
    if fs != [] {
      var f := fs[|fs| - 1];
      PathApartLess(fs[..|fs| - 1], below + {f.ref} + Objs(f.sib), less + {f.ref} + Objs(f.sib));
    }
  }

  /** A node that is not on the path can be hung under it. */
  lemma {:induction false} PathApartMore<V>(fs: seq<Frame<V>>, below: set<object>, more: set<object>)
    requires PathApart(fs, below) && PathObjs(fs) !! more
    ensures PathApart(fs, below + more)
  {
    if fs != [] {
      var f := fs[|fs| - 1];
      PathApartMore(fs[..|fs| - 1], below + {f.ref} + Objs(f.sib), more);
      assert below + {f.ref} + Objs(f.sib) + more == below + more + {f.ref} + Objs(f.sib);
    }
  }

  lemma {:induction false} PlugNodes<V>(fs: seq<Frame<V>>, t: Tree<V>)
    ensures Objs(Plug(fs, t)) == PathObjs(fs) + Objs(t)
    ensures Distinct(Plug(fs, t)) <==> Distinct(t) && PathApart(fs, Objs(t))
  {
    if fs != [] {
      var f := fs[|fs| - 1];
      PlugNodes(fs[..|fs| - 1], Step(f, t));
      assert Objs(Step(f, t)) == Objs(t) + {f.ref} + Objs(f.sib);
    }
  }

  /** The frame left behind when the descent from node `t` goes left or right. */
  ghost function FrameOf<V>(t: Tree<V>, left: bool): Frame<V>
    requires t.Node?
  {
    Frame(t.ref, left, t.key, t.value, t.bal, if left then t.right else t.left)
  }

  ghost function Child<V>(t: Tree<V>, left: bool): Tree<V>
    requires t.Node?
  {
    if left then t.left else t.right
  }

  // ---------- the map that an ordered list of entries stands for ----------

  ghost function MapOf<V>(s: seq<Entry<V>>): map<nat, V> {
    if s == [] then map[] else MapOf(s[..|s| - 1])[s[|s| - 1].key := s[|s| - 1].value]
  }

  lemma {:induction false} MapSkips<V>(s: seq<Entry<V>>, key: nat)
    requires forall e | e in s :: e.key != key
    ensures key !in MapOf(s)
  {
    if s != [] {
      MapSkips(s[..|s| - 1], key);
      assert s[|s| - 1] in s;
    }
  }

  lemma {:induction false} MapSize<V>(s: seq<Entry<V>>)
    requires Sorted(s)
    ensures |MapOf(s)| == |s|
  {
    if s != [] {
      MapSize(s[..|s| - 1]);
      MapSkips(s[..|s| - 1], s[|s| - 1].key);
    }
  }

  /** The key belongs between the entries of the two lists. */
  ghost predicate Between<V>(a: seq<Entry<V>>, key: nat, b: seq<Entry<V>>) {
    (forall e | e in a :: e.key < key) && (forall e | e in b :: key < e.key)
  }

  lemma SortedWith<V>(a: seq<Entry<V>>, e: Entry<V>, b: seq<Entry<V>>)
    requires Between(a, e.key, b) && Sorted(a + b)
    ensures Sorted(a + [e] + b)
  {
    var s, t := a + b, a + [e] + b;
    forall i, j | 0 <= i < j < |t| ensures t[i].key < t[j].key {
      if i == |a| {
        assert t[j] == b[j - |a| - 1];
      } else if j == |a| {
        assert t[i] == a[i];
      } else {
        assert t[i] == s[if i < |a| then i else i - 1] && t[j] == s[if j < |a| then j else j - 1];
      }
    }
  }

  lemma MapAdd<V>(s: seq<Entry<V>>, e: Entry<V>)
    ensures MapOf(s + [e]) == MapOf(s)[e.key := e.value]
  {
    assert (s + [e])[..|s|] == s;
  }

  lemma MapAddAfter<V>(a: seq<Entry<V>>, c: seq<Entry<V>>, x: Entry<V>)
    ensures MapOf(a + (c + [x])) == MapOf(a + c)[x.key := x.value]
  {
    assert a + (c + [x]) == (a + c) + [x];
    MapAdd(a + c, x);
  }

  /** An entry in the middle of a list. */
  lemma {:induction false} MapMiddle<V>(a: seq<Entry<V>>, e: Entry<V>, b: seq<Entry<V>>)
    requires forall x | x in b :: x.key != e.key
    ensures MapOf(a + [e] + b) == MapOf(a + b)[e.key := e.value]
    decreases |b|
  {
    if b == [] {
      assert a + [e] + b == a + [e] && a + b == a;
      MapAdd(a, e);
    } else {
      var c, x := b[..|b| - 1], b[|b| - 1];
      assert x in b && x.key != e.key;
      assert forall y | y in c :: y in b;
      MapMiddle(a, e, c);
      assert b == c + [x];
      MapAddAfter(a, c, x);
      MapAddAfter(a + [e], c, x);
    }
  }

  /** The list with the entry at its key, and without it. */
  lemma MapWith<V>(a: seq<Entry<V>>, e: Entry<V>, b: seq<Entry<V>>)
    requires Between(a, e.key, b)
    ensures e.key !in MapOf(a + b) && MapOf(a + [e] + b) == MapOf(a + b)[e.key := e.value]
  {
    MapSkips(a + b, e.key);
    MapMiddle(a, e, b);
  }

  lemma SortedPart<V>(a: seq<Entry<V>>, s: seq<Entry<V>>, b: seq<Entry<V>>)
    requires Sorted(a + s + b)
    ensures Sorted(a + b) && Sorted(s)
  {
    var w := a + s + b;
    forall i, j | 0 <= i < j < |a + b| ensures (a + b)[i].key < (a + b)[j].key {
      assert (a + b)[i] == w[if i < |a| then i else i + |s|] && (a + b)[j] == w[if j < |a| then j else j + |s|];
    }
    forall i, j | 0 <= i < j < |s| ensures s[i].key < s[j].key {
      assert s[i] == w[|a| + i] && s[j] == w[|a| + j];
    }
  }

  lemma SortedAround<V>(l: seq<Entry<V>>, e: Entry<V>, r: seq<Entry<V>>)
    requires Sorted(l + [e] + r)
    ensures Between(l, e.key, r)
  {
    var s := l + [e] + r;
    assert s[|l|] == e;
    forall x | x in l ensures x.key < e.key {
      var i :| 0 <= i < |l| && l[i] == x;
      assert s[i] == x;
    }
    forall x | x in r ensures e.key < x.key {
      var i :| 0 <= i < |r| && r[i] == x;
      assert s[|l| + 1 + i] == x;
    }
  }

  /** Descending towards `key` keeps it between the entries passed on either side. */
  lemma BetweenDown<V>(fs: seq<Frame<V>>, t: Tree<V>, key: nat)
    requires Sorted(InOrder(Plug(fs, t))) && Between(Before(fs), key, After(fs)) && t.Node? && key != t.key
    ensures var gs := fs + [FrameOf(t, key < t.key)];
            Between(Before(gs), key, After(gs)) && Plug(gs, Child(t, key < t.key)) == Plug(fs, t)
  {
    PlugOrder(fs, t);
    SortedPart(Before(fs), InOrder(t), After(fs));
    SortedAround(InOrder(t.left), Entry(t.key, t.value), InOrder(t.right));
    PlugDown(fs, t, key < t.key);
  }

  lemma PlugDown<V>(fs: seq<Frame<V>>, t: Tree<V>, left: bool)
    requires t.Node?
    ensures var f := FrameOf(t, left);
            (fs + [f])[..|fs|] == fs && (fs + [f])[|fs|] == f && Plug(fs + [f], Child(t, left)) == Plug(fs, t)
  {
  }

  ghost predicate LeftRun<V>(xs: seq<Frame<V>>) {
    forall x | x in xs :: x.left
  }

  lemma {:induction false} NothingBefore<V>(xs: seq<Frame<V>>)
    requires LeftRun(xs)
    ensures Before(xs) == []
  {
    if xs != [] {
      assert xs[|xs| - 1] in xs;
      NothingBefore(xs[..|xs| - 1]);
    }
  }

  /** The smallest entry of a tree whose leftmost path is `xs`: taking its node `m` away. */
  lemma SmallestOf<V>(xs: seq<Frame<V>>, m: Tree<V>)
    requires LeftRun(xs) && m.Node? && m.left.Leaf?
    ensures InOrder(Plug(xs, m)) == [Entry(m.key, m.value)] + InOrder(Plug(xs, m.right))
  {
    NothingBefore(xs);
    PlugOrder(xs, m);
    PlugOrder(xs, m.right);
    FirstOut([Entry(m.key, m.value)], InOrder(m.right), After(xs));
  }

  lemma SmallestUnhooked<V>(xs: seq<Frame<V>>, m: Tree<V>)
    requires Distinct(Plug(xs, m)) && m.Node? && m.left.Leaf?
    ensures var r, rest := Plug(xs, m), Plug(xs, m.right);
            m.ref !in Objs(rest) && Objs(r) == Objs(rest) + {m.ref} && Distinct(rest)
  {
    PlugNodes(xs, m);
    PlugNodes(xs, m.right);
    PathIsApart(xs, Objs(m));
    PathApartLess(xs, Objs(m), Objs(m.right));
  }

  // ---------- the three ways to take a node away ----------

  /** No right subtree: the left one moves up. */
  lemma LeftMovesUp<V>(fs: seq<Frame<V>>, t: Tree<V>)
    requires t.Node? && t.right.Leaf? && Avl(Plug(fs, t))
    ensures Shrinking(fs, t.left, 0) && InOrder(Plug(fs, t.left)) == Without(fs, t)
  {
    PlugAvl(fs, t);
    PlugOrder(fs, t.left);
    assert InOrder(t.left) + [] == InOrder(t.left);
  }

  /** The right child has no left subtree: it takes the place and the balance of the node. */
  ghost function RightUp<V>(t: Tree<V>): (r: Tree<V>)
    requires t.Node? && t.right.Node?
    ensures r.Node?
  {
    t.right.(left := t.left, bal := t.bal)
  }

  lemma RightUpNodes<V>(fs: seq<Frame<V>>, t: Tree<V>)
    requires t.Node? && t.right.Node? && t.right.left.Leaf? && Distinct(t) && PathApart(fs, Objs(t))
    ensures var v := RightUp(t);
            Distinct(v) && Objs(v) == Objs(t) - {t.ref} && PathApart(fs, Objs(v)) &&
            t.ref !in PathObjs(fs) && v.ref !in PathObjs(fs) && v.ref != t.ref &&
            v.ref !in Objs(t.left) && v.ref !in Objs(t.right.right)
  {
    PathIsApart(fs, Objs(t));
    var r := t.right;
    assert Objs(r) == {r.ref} + Objs(r.right) && Distinct(r);
    assert Objs(t) == {t.ref} + Objs(t.left) + Objs(r);
    PathApartLess(fs, Objs(t), Objs(RightUp(t)));
  }

  lemma RightMovesUp<V>(fs: seq<Frame<V>>, t: Tree<V>)
    requires t.Node? && t.right.Node? && t.right.left.Leaf? && Avl(Plug(fs, t))
    ensures var gs, u := fs + [FrameOf(RightUp(t), false)], t.right.right;
            Shrinking(gs, u, 0) && InOrder(Plug(gs, u)) == Without(fs, t)
  {
    var v, u := RightUp(t), t.right.right;
    PlugDown(fs, v, false);
    PlugOrder(fs, v);
    assert InOrder(v) == InOrder(t.left) + InOrder(t.right) by {
      Sequences.Associate(InOrder(t.left), [Entry(v.key, v.value)], InOrder(u));
      assert [] + [Entry(v.key, v.value)] == [Entry(v.key, v.value)];
    }
    RightFits(fs, t);
  }

  lemma RightFits<V>(fs: seq<Frame<V>>, t: Tree<V>)
    requires t.Node? && t.right.Node? && t.right.left.Leaf? && Avl(Plug(fs, t))
    ensures Avl(t.right.right) && PathFits(fs + [FrameOf(RightUp(t), false)], Height(t.right.right) + 1)
  {
    PlugAvl(fs, t);
    var h := Height(t.right.right) + 1;
    assert Height(t.right) == h;
    FitsLast(fs, FrameOf(RightUp(t), false), h);
  }

  /** Otherwise the smallest node `m` of the right subtree, at the end of its leftmost path `xs`,
      takes the place and the balance of the node, and its right subtree takes its own place. */
  ghost function SmallestUp<V>(t: Tree<V>, xs: seq<Frame<V>>, m: Tree<V>): (r: Tree<V>)
    requires t.Node? && m.Node?
    ensures r.Node?
  {
    Node(m.ref, t.left, m.key, m.value, t.bal, Plug(xs, m.right))
  }

  lemma SmallestUpNodes<V>(fs: seq<Frame<V>>, t: Tree<V>, xs: seq<Frame<V>>, m: Tree<V>)
    requires t.Node? && t.right == Plug(xs, m) && m.Node? && m.left.Leaf? && Distinct(t) && PathApart(fs, Objs(t))
    ensures m.ref in Objs(t) && m.ref != t.ref && m.ref !in PathObjs(fs) && t.ref !in PathObjs(fs)
  {
    SmallestUnhooked(xs, m);
    PathIsApart(fs, Objs(t));
  }

  lemma TakenOver<V>(fs: seq<Frame<V>>, t: Tree<V>, m: Tree<V>)
    requires t.Node? && m.Node? && Distinct(t) && PathApart(fs, Objs(t)) && m.ref !in PathObjs(fs) + Objs(t)
    ensures var v := t.(ref := m.ref, key := m.key, value := m.value);
            Distinct(v) && PathApart(fs, Objs(v)) && Objs(v) == Objs(t) - {t.ref} + {m.ref} && t.ref !in PathObjs(fs) &&
            m.ref !in Objs(t.left) && m.ref !in Objs(t.right)
  {
    PathIsApart(fs, Objs(t));
    PathApartLess(fs, Objs(t), Objs(t.left) + Objs(t.right));
    PathApartMore(fs, Objs(t.left) + Objs(t.right), {m.ref});
    assert Objs(t.left) + Objs(t.right) + {m.ref} == {m.ref} + Objs(t.left) + Objs(t.right);
  }

  lemma PathHas<V>(fs: seq<Frame<V>>)
    requires fs != []
    ensures fs[|fs| - 1].ref in PathObjs(fs)
  {
  }

  lemma SmallestMovesUp<V>(fs: seq<Frame<V>>, t: Tree<V>, xs: seq<Frame<V>>, m: Tree<V>)
    requires t.Node? && t.right == Plug(xs, m) && LeftRun(xs) && m.Node? && m.left.Leaf? && Avl(Plug(fs, t))
    ensures var gs := fs + [FrameOf(SmallestUp(t, xs, m), false)] + xs;
            Shrinking(gs, m.right, 0) && InOrder(Plug(gs, m.right)) == Without(fs, t)
  {
    hide *;
    MovedUpFits(fs, t, xs, m);
    MovedUpOrder(fs, t, xs, m);
  }

  lemma MovedUpFits<V>(fs: seq<Frame<V>>, t: Tree<V>, xs: seq<Frame<V>>, m: Tree<V>)
    requires t.Node? && t.right == Plug(xs, m) && m.Node? && m.left.Leaf? && Avl(Plug(fs, t))
    ensures Shrinking(fs + [FrameOf(SmallestUp(t, xs, m), false)] + xs, m.right, 0)
  {
    hide Plug, Avl, Height, PathFits;
    MiddleFits(fs, t, xs, m);
    FitsExchanged(fs, FrameOf(t, false), FrameOf(SmallestUp(t, xs, m), false), xs, Height(m));
  }

  lemma MovedUpOrder<V>(fs: seq<Frame<V>>, t: Tree<V>, xs: seq<Frame<V>>, m: Tree<V>)
    requires t.Node? && t.right == Plug(xs, m) && LeftRun(xs) && m.Node? && m.left.Leaf?
    ensures InOrder(Plug(fs + [FrameOf(SmallestUp(t, xs, m), false)] + xs, m.right)) == Without(fs, t)
  {
    hide Plug, InOrder, Before, After, LeftRun;
    var v := SmallestUp(t, xs, m);
    var g := FrameOf(v, false);
    SmallestUpOrder(t, xs, m);
    PlugDown(fs, v, false);
    PlugSplit(fs + [g], xs, m.right);
    PlugOrder(fs, v);
  }

  lemma SmallestUpOrder<V>(t: Tree<V>, xs: seq<Frame<V>>, m: Tree<V>)
    requires t.Node? && t.right == Plug(xs, m) && LeftRun(xs) && m.Node? && m.left.Leaf?
    ensures InOrder(SmallestUp(t, xs, m)) == InOrder(t.left) + InOrder(t.right)
  {
    SmallestOf(xs, m);
    Sequences.Associate(InOrder(t.left), [Entry(m.key, m.value)], InOrder(Plug(xs, m.right)));
  }

  lemma MiddleFits<V>(fs: seq<Frame<V>>, t: Tree<V>, xs: seq<Frame<V>>, m: Tree<V>)
    requires t.Node? && t.right == Plug(xs, m) && m.Node? && m.left.Leaf? && Avl(Plug(fs, t))
    ensures PathFits(fs + [FrameOf(t, false)] + xs, Height(m)) && Avl(m.right) && Height(m) == Height(m.right) + 1
  {
    var f := FrameOf(t, false);
    PlugDown(fs, t, false);
    PlugSplit(fs + [f], xs, m);
    PlugAvl(fs + [f] + xs, m);
  }

  lemma FirstOut<T>(e: seq<T>, r: seq<T>, y: seq<T>)
    ensures [] + ([] + e + r) + y == e + ([] + r + y)
  {
  }

  // ---------- what an operation does to the contents ----------

  /** The subtree `u` holds the entries of the node `t` with its own entry as given. */
  lemma ReplacedContents<V>(fs: seq<Frame<V>>, t: Tree<V>, u: Tree<V>, value: V)
    requires t.Node? && Sorted(InOrder(Plug(fs, t)))
    requires InOrder(u) == InOrder(t.left) + [Entry(t.key, value)] + InOrder(t.right)
    ensures var s := InOrder(Plug(fs, u));
            Sorted(s) && MapOf(s) == MapOf(InOrder(Plug(fs, t)))[t.key := value] &&
            |s| == |InOrder(Plug(fs, t))|
  {
    var a, b := Before(fs) + InOrder(t.left), InOrder(t.right) + After(fs);
    PlugOrder(fs, t);
    PlugOrder(fs, u);
    Regroup(Before(fs), InOrder(t.left), [Entry(t.key, t.value)], InOrder(t.right), After(fs));
    Regroup(Before(fs), InOrder(t.left), [Entry(t.key, value)], InOrder(t.right), After(fs));
    SortedAround(a, Entry(t.key, t.value), b);
    SortedPart(a, [Entry(t.key, t.value)], b);
    SortedWith(a, Entry(t.key, value), b);
    MapWith(a, Entry(t.key, value), b);
    MapWith(a, Entry(t.key, t.value), b);
  }

  lemma Regroup<T>(x: seq<T>, l: seq<T>, e: seq<T>, r: seq<T>, y: seq<T>)
    ensures x + (l + e + r) + y == (x + l) + e + (r + y)
    ensures x + (l + r) + y == (x + l) + (r + y)
  {
  }

  /** A new entry where the path for its key ends. */
  lemma AddedContents<V>(fs: seq<Frame<V>>, e: Entry<V>, u: Tree<V>)
    requires Sorted(InOrder(Plug(fs, Leaf))) && Between(Before(fs), e.key, After(fs)) && InOrder(u) == [e]
    ensures var s, o := InOrder(Plug(fs, u)), InOrder(Plug(fs, Leaf));
            Sorted(s) && e.key !in MapOf(o) && MapOf(s) == MapOf(o)[e.key := e.value] && |s| == |o| + 1
  {
    PlugOrder(fs, Leaf);
    PlugOrder(fs, u);
    assert Before(fs) + [] + After(fs) == Before(fs) + After(fs);
    SortedWith(Before(fs), e, After(fs));
    MapWith(Before(fs), e, After(fs));
  }

  /** All entries but that of the node `t`. */
  ghost function Without<V>(fs: seq<Frame<V>>, t: Tree<V>): seq<Entry<V>>
    requires t.Node?
  {
    Before(fs) + (InOrder(t.left) + InOrder(t.right)) + After(fs)
  }

  lemma RemovedContents<V>(fs: seq<Frame<V>>, t: Tree<V>)
    requires t.Node? && Sorted(InOrder(Plug(fs, t)))
    ensures var s, o := Without(fs, t), InOrder(Plug(fs, t));
            Sorted(s) && t.key in MapOf(o) && MapOf(o)[t.key] == t.value && MapOf(s) == MapOf(o) - {t.key} &&
            |s| == |o| - 1
  {
    var a, b, e := Before(fs) + InOrder(t.left), InOrder(t.right) + After(fs), Entry(t.key, t.value);
    PlugOrder(fs, t);
    Regroup(Before(fs), InOrder(t.left), [e], InOrder(t.right), After(fs));
    SortedAround(a, e, b);
    SortedPart(a, [e], b);
    MapWith(a, e, b);
    AddThenDrop(MapOf(a + b), t.key, t.value);
  }

  lemma AddThenDrop<K, V>(m: map<K, V>, k: K, v: V)
    requires k !in m
    ensures m[k := v] - {k} == m
  {
  }

  lemma FoundKey<V>(fs: seq<Frame<V>>, t: Tree<V>)
    requires t.Node? && Sorted(InOrder(Plug(fs, t)))
    ensures t.key in MapOf(InOrder(Plug(fs, t))) && MapOf(InOrder(Plug(fs, t)))[t.key] == t.value
  {
    ReplacedContents(fs, t, t, t.value);
  }

  /** Where the path for a key ends at a leaf, the key is not in the map. */
  lemma MissingKey<V>(fs: seq<Frame<V>>, key: nat)
    requires Between(Before(fs), key, After(fs))
    ensures key !in MapOf(InOrder(Plug(fs, Leaf)))
  {
    PlugOrder(fs, Leaf);
    MapSkips(Before(fs) + [] + After(fs), key);
  }
}

/** The map from integers to values: an AVL tree of heap nodes, updated through pointers to the
    slots that hold them, with an explicit stack of the slots passed on the way down. */
module LongMaps {
  import opened Wrappers
  import opened AvlTree

  /** A place that holds a pointer to a node. */
  datatype Slot<V> = RootSlot | LeftSlot(node: MapNode<V>) | RightSlot(node: MapNode<V>)

  /** The slot at the end of a path. */
  ghost function SlotUnder<V>(fs: seq<Frame<V>>): Slot<V> {
    if fs == [] then RootSlot else
      var f := fs[|fs| - 1];
      if f.left then LeftSlot(f.ref) else RightSlot(f.ref)
  }

  ghost function Owner<V>(slot: Slot<V>): set<object> {
    if slot.RootSlot? then {} else {slot.node}
  }

  /** What the descent remembers of each node it passes: the slot holding it, and the side taken. */
  datatype StackNode<V> = StackNode(slot: Slot<V>, direction: int)

  /** The entries of the stack are the steps of the path. */
  ghost predicate StackOf<V>(stack: seq<StackNode<V>>, fs: seq<Frame<V>>) {
    |stack| == |fs| && forall i | 0 <= i < |fs| :: stack[i] == StackNode(SlotUnder(fs[..i]), Delta(fs[i]))
  }

  /** The stack while the side taken from the node on its top is not known yet. */
  ghost predicate OpenStack<V>(stack: seq<StackNode<V>>, fs: seq<Frame<V>>) {
    |stack| == |fs| + 1 && StackOf(stack[..|fs|], fs) && stack[|fs|].slot == SlotUnder(fs)
  }

  lemma StackStart<V>(fs: seq<Frame<V>>)
    requires fs == []
    ensures OpenStack([StackNode(RootSlot, 0)], fs)
  {
  }

  lemma StackClose<V>(stack: seq<StackNode<V>>, fs: seq<Frame<V>>, f: Frame<V>)
    requires OpenStack(stack, fs)
    ensures StackOf(stack[|fs| := stack[|fs|].(direction := Delta(f))], fs + [f])
  {
    StackPush(stack[..|fs|], fs, f);
    var top := stack[|fs|].(direction := Delta(f));
    assert stack[|fs| := top] == stack[..|fs|] + [top];
  }

  lemma StackPush<V>(stack: seq<StackNode<V>>, fs: seq<Frame<V>>, f: Frame<V>)
    requires StackOf(stack, fs)
    ensures StackOf(stack + [StackNode(SlotUnder(fs), Delta(f))], fs + [f])
  {
    forall i | 0 <= i <= |fs| ensures (fs + [f])[..i] == fs[..i] {}
  }

  /** The frame `f`, of a step to the right, is exchanged for `g`: only the slot after it differs. */
  lemma StackPatched<V>(stack: seq<StackNode<V>>, fs: seq<Frame<V>>, f: Frame<V>, g: Frame<V>, xs: seq<Frame<V>>)
    requires StackOf(stack, fs + [f] + xs) && !f.left && !g.left && xs != []
    ensures StackOf(stack[|fs| + 1 := stack[|fs| + 1].(slot := RightSlot(g.ref))], fs + [g] + xs)
  {
    var p, q, n := fs + [f] + xs, fs + [g] + xs, |fs|;
    forall i | 0 <= i < |q| && i != n + 1 ensures q[i].left == p[i].left && SlotUnder(q[..i]) == SlotUnder(p[..i]) {
      if i <= n {
        assert q[..i] == p[..i];
      } else {
        assert q[i] == p[i] && q[..i][i - 1] == p[..i][i - 1];
      }
    }
    assert q[..n + 1] == fs + [g];
  }

  /** Two nodes, three subtrees and a set of nodes that have nothing in common. */
  ghost predicate Apart<V>(p: MapNode<V>, q: MapNode<V>, a: Tree<V>, b: Tree<V>, c: Tree<V>, owner: set<object>) {
    p != q && {p, q} !! Objs(a) && {p, q} !! Objs(b) && {p, q} !! Objs(c) &&
    {p, q} !! owner && owner !! Objs(a) && owner !! Objs(b) && owner !! Objs(c)
  }

  class LongMap<V> {
    var root: MapNode?<V>
    var numElements: nat
    ghost var tree: Tree<V>
    ghost var Repr: set<object>

    function Get(slot: Slot<V>): MapNode?<V>
      reads this`root, Owner(slot)
    {
      match slot
      case RootSlot => root
      case LeftSlot(n) => n.left
      case RightSlot(n) => n.right
    }

    method Set(slot: Slot<V>, node: MapNode?<V>)
      modifies this`root, Owner(slot)
      ensures Get(slot) == node && OnlySlot(slot)
    {
      match slot
      case RootSlot => root := node;
      case LeftSlot(n) => n.left := node;
      case RightSlot(n) => n.right := node;
    }

    /** Of the slot's owner, nothing but the slot has changed. */
    twostate predicate OnlySlot(slot: Slot<V>)
      reads this`root, Owner(slot)
    {
      match slot
      case RootSlot => true
      case LeftSlot(n) =>
        root == old(root) && n.key == old(n.key) && n.value == old(n.value) && n.balance == old(n.balance) &&
        n.right == old(n.right)
      case RightSlot(n) =>
        root == old(root) && n.key == old(n.key) && n.value == old(n.value) && n.balance == old(n.balance) &&
        n.left == old(n.left)
    }

    /** The slot holds the tree `t`, of distinct nodes, none of which owns the slot. */
    ghost predicate Holds(slot: Slot<V>, t: Tree<V>)
      reads this`root, this`Repr, Owner(slot), Objs(t)
    {
      this !in Repr && Objs(t) <= Repr && Owner(slot) <= Repr && Owner(slot) !! Objs(t) && Distinct(t) &&
      Linked(Get(slot), t)
    }

    method RotateRight(slot: Slot<V>, ghost t: Tree<V>)
      requires Holds(slot, t) && t.Node? && t.left.Node?
      modifies this`root, Owner(slot), Objs(t)
      ensures Holds(slot, AvlTree.RotateRight(t)) && OnlySlot(slot)
    {
      RotateRightKeeps(t);
      var oldParent := Get(slot);
      assert Linked(oldParent.left, t.left) && Linked(oldParent.right, t.right);
      var pivot := oldParent.left;
      ghost var a, b, c := t.left.left, t.left.right, t.right;
      assert Linked(pivot.left, a) && Linked(pivot.right, b);
      assert Apart(oldParent, pivot, a, b, c, Owner(slot)) by { assert Distinct(t.left); }
      oldParent.left := pivot.right;
      pivot.right := oldParent;
      Set(slot, pivot);
      assert Linked(pivot.left, a) && Linked(oldParent.left, b) && Linked(oldParent.right, c);
      assert Linked(oldParent, AvlTree.RotateRight(t).right);
    }

    method RotateLeft(slot: Slot<V>, ghost t: Tree<V>)
      requires Holds(slot, t) && t.Node? && t.right.Node?
      modifies this`root, Owner(slot), Objs(t)
      ensures Holds(slot, AvlTree.RotateLeft(t)) && OnlySlot(slot)
    {
      RotateLeftKeeps(t);
      var oldParent := Get(slot);
      assert Linked(oldParent.left, t.left) && Linked(oldParent.right, t.right);
      var pivot := oldParent.right;
      ghost var a, b, c := t.left, t.right.left, t.right.right;
      assert Linked(pivot.left, b) && Linked(pivot.right, c);
      assert Apart(oldParent, pivot, a, b, c, Owner(slot)) by { assert Distinct(t.right); }
      oldParent.right := pivot.left;
      pivot.left := oldParent;
      Set(slot, pivot);
      assert Linked(oldParent.left, a) && Linked(oldParent.right, b) && Linked(pivot.right, c);
      assert Linked(oldParent, AvlTree.RotateLeft(t).left);
    }

    /** The balances of the node in the slot and of its right child. */
    method SetRight(slot: Slot<V>, child: int, own: int, ghost t: Tree<V>)
      requires Holds(slot, t) && t.Node? && t.right.Node?
      modifies Objs(t)
      ensures Get(slot) == old(Get(slot)) && OnlySlot(slot)
      ensures Holds(slot, t.(right := t.right.(bal := child), bal := own))
    {
      var n := Get(slot);
      ghost var r := t.right;
      assert Linked(n.left, t.left) && Linked(n.right, r);
      assert Linked(n.right.left, r.left) && Linked(n.right.right, r.right);
      assert Apart(n, n.right, t.left, r.left, r.right, Owner(slot)) by { assert Distinct(r); }
      n.right.balance := child;
      n.balance := own;
      ghost var r' := r.(bal := child);
      assert InOrder(r') == InOrder(r) && Objs(r') == Objs(r) && Distinct(r');
      assert Linked(n.right, r');
      assert SameNodes(t, t.(right := r', bal := own));
    }

    method SetLeft(slot: Slot<V>, child: int, own: int, ghost t: Tree<V>)
      requires Holds(slot, t) && t.Node? && t.left.Node?
      modifies Objs(t)
      ensures Get(slot) == old(Get(slot)) && OnlySlot(slot)
      ensures Holds(slot, t.(left := t.left.(bal := child), bal := own))
    {
      var n := Get(slot);
      ghost var l := t.left;
      assert Linked(n.left, l) && Linked(n.right, t.right);
      assert Linked(n.left.left, l.left) && Linked(n.left.right, l.right);
      assert Apart(n, n.left, l.left, l.right, t.right, Owner(slot)) by { assert Distinct(l); }
      n.left.balance := child;
      n.balance := own;
      ghost var l' := l.(bal := child);
      assert InOrder(l') == InOrder(l) && Objs(l') == Objs(l) && Distinct(l');
      assert Linked(n.left, l');
      assert SameNodes(t, t.(left := l', bal := own));
    }

    method RestoreLeft(slot: Slot<V>, ghost t: Tree<V>)
      requires Holds(slot, t) && t.Node? && t.left.Node? && (t.left.bal > 0 ==> t.left.right.Node?)
      modifies this`root, Owner(slot), Objs(t)
      ensures Holds(slot, FixLeft(t)) && OnlySlot(slot)
    {
      var n := Get(slot);
      assert Linked(n.left, t.left) && Linked(n.right, t.right);
      var b := n.left.balance;
      if b <= 0 {
        RotateRight(slot, t);
        RotateRightKeeps(t);
        SetRight(slot, if b < 0 then 0 else -1, if b < 0 then 0 else 1, AvlTree.RotateRight(t));
      } else {
        RotateLeftKeeps(t.left);
        ghost var u := t.(left := AvlTree.RotateLeft(t.left));
        RotateLeft(LeftSlot(n), t.left);
        assert Linked(n.right, t.right);
        assert Linked(n, u);
        ChildKeeps(t, u.left);
        RotateRight(slot, u);
        RotateRightKeeps(u);
        SetThree(slot, AvlTree.RotateRight(u));
      }
    }

    /** After a double rotation: the balances of the new root and of both its children. */
    method SetThree(slot: Slot<V>, ghost t: Tree<V>)
      requires Holds(slot, t) && t.Node? && t.left.Node? && t.right.Node?
      modifies Objs(t)
      ensures Get(slot) == old(Get(slot)) && OnlySlot(slot)
      ensures Holds(slot, SetBalances(t, if t.bal > 0 then -1 else 0, if t.bal < 0 then 1 else 0, 0))
    {
      var n := Get(slot);
      var b := n.balance;
      SetLeft(slot, if b > 0 then -1 else 0, b, t);
      ghost var u := t.(left := t.left.(bal := if t.bal > 0 then -1 else 0));
      BalancesKeep(t, if t.bal > 0 then -1 else 0, t.right.bal, t.bal);
      SetRight(slot, if b < 0 then 1 else 0, 0, u);
    }

    method RestoreRight(slot: Slot<V>, ghost t: Tree<V>)
      requires Holds(slot, t) && t.Node? && t.right.Node? && (t.right.bal < 0 ==> t.right.left.Node?)
      modifies this`root, Owner(slot), Objs(t)
      ensures Holds(slot, FixRight(t)) && OnlySlot(slot)
    {
      var n := Get(slot);
      assert Linked(n.left, t.left) && Linked(n.right, t.right);
      var b := n.right.balance;
      if b >= 0 {
        RotateLeft(slot, t);
        RotateLeftKeeps(t);
        SetLeft(slot, if b > 0 then 0 else 1, if b > 0 then 0 else -1, AvlTree.RotateLeft(t));
      } else {
        RotateRightKeeps(t.right);
        ghost var u := t.(right := AvlTree.RotateRight(t.right));
        RotateRight(RightSlot(n), t.right);
        assert Linked(n.left, t.left);
        assert Linked(n, u);
        ChildKeeps(t, u.right);
        RotateLeft(slot, u);
        RotateLeftKeeps(u);
        SetThree(slot, AvlTree.RotateLeft(u));
      }
    }

    /** `direction` is the side that was updated; `updateOp` is 1 after an insertion and -1
        after a removal. */
    method Rebalance(slot: Slot<V>, direction: int, updateOp: int, ghost t: Tree<V>) returns (balance: int)
      requires Holds(slot, t) && Pending(t, updateOp * direction)
      modifies this`root, Owner(slot), Objs(t)
      ensures Holds(slot, Rebalanced(t, updateOp * direction)) && OnlySlot(slot)
      ensures balance == Rebalanced(t, updateOp * direction).bal
    {
      var n := Get(slot);
      assert Linked(n.left, t.left) && Linked(n.right, t.right);
      n.balance := n.balance + updateOp * direction;
      ghost var u := t.(bal := t.bal + updateOp * direction);
      assert Linked(n, u);
      ghost var r := u;
      if n.balance < -1 {
        RestoreLeft(slot, u);
        r := FixLeft(u);
      }
      n := Get(slot);
      if n.balance > 1 {
        RestoreRight(slot, r);
      }
      n := Get(slot);
      balance := n.balance;
    }

    // ---------- the state of a descent ----------

    ghost predicate FrameLinked(f: Frame<V>)
      reads f.ref, Objs(f.sib)
    {
      f.ref.key == f.key && f.ref.value == f.value && f.ref.balance == f.bal &&
      Linked(if f.left then f.ref.right else f.ref.left, f.sib)
    }

    /** The nodes of the path hang below each other, starting at the root. */
    ghost predicate PathLinked(fs: seq<Frame<V>>)
      reads this`root, PathObjs(fs)
    {
      fs == [] ||
      var f, front := fs[|fs| - 1], fs[..|fs| - 1];
      FrameLinked(f) && PathLinked(front) && Get(SlotUnder(front)) == f.ref
    }

    /** The map is the path `fs` with the tree `t` under it. */
    ghost predicate At(fs: seq<Frame<V>>, t: Tree<V>)
      reads this`root, this`Repr, PathObjs(fs), Objs(t)
    {
      PathLinked(fs) && PathApart(fs, Objs(t)) && this !in Repr && Repr == PathObjs(fs) + Objs(t) &&
      Distinct(t) && Linked(Get(SlotUnder(fs)), t)
    }

    lemma AtHolds(fs: seq<Frame<V>>, t: Tree<V>)
      requires At(fs, t)
      ensures Holds(SlotUnder(fs), t)
    {
      PathIsApart(fs, Objs(t));
    }

    lemma SlotIsInside(fs: seq<Frame<V>>, t: Tree<V>)
      requires At(fs, t)
      ensures Owner(SlotUnder(fs)) <= Repr
    {
      AtHolds(fs, t);
    }

    lemma AtIsApart(fs: seq<Frame<V>>, t: Tree<V>)
      requires At(fs, t)
      ensures this !in PathObjs(fs) && this !in Objs(t)
    {
    }

    lemma AtDown(fs: seq<Frame<V>>, t: Tree<V>, left: bool)
      requires At(fs, t) && t.Node?
      ensures At(fs + [FrameOf(t, left)], Child(t, left))
    {
      var f := FrameOf(t, left);
      assert (fs + [f])[..|fs|] == fs;
      assert Objs(t) == Objs(Child(t, left)) + {f.ref} + Objs(f.sib);
    }

    lemma AtUp(fs: seq<Frame<V>>, t: Tree<V>)
      requires At(fs, t) && fs != []
      ensures At(fs[..|fs| - 1], Step(fs[|fs| - 1], t))
    {
      var f := fs[|fs| - 1];
      assert Objs(Step(f, t)) == Objs(t) + {f.ref} + Objs(f.sib);
    }

    lemma {:induction false} AtWhole(fs: seq<Frame<V>>, t: Tree<V>)
      requires At(fs, t)
      ensures var w := Plug(fs, t); Linked(root, w) && Distinct(w) && Objs(w) == Repr
      decreases |fs|
    {
      if fs != [] {
        AtUp(fs, t);
        AtWhole(fs[..|fs| - 1], Step(fs[|fs| - 1], t));
      }
    }

    method RebalanceAt(slot: Slot<V>, direction: int, updateOp: int, ghost fs: seq<Frame<V>>, ghost t: Tree<V>)
      returns (balance: int)
      requires At(fs, t) && slot == SlotUnder(fs) && Pending(t, updateOp * direction)
      modifies this`root, Repr
      ensures At(fs, Rebalanced(t, updateOp * direction)) && Repr == old(Repr)
      ensures balance == Rebalanced(t, updateOp * direction).bal
    {
      AtHolds(fs, t);
      PathIsApart(fs, Objs(t));
      RebalanceKeeps(t, updateOp * direction);
      ghost var front := if fs == [] then [] else fs[..|fs| - 1];
      if fs != [] {
        ghost var f := fs[|fs| - 1];
        PathIsApart(front, Objs(t) + {f.ref} + Objs(f.sib));
        assert Get(SlotUnder(front)) == f.ref && Linked(if f.left then f.ref.right else f.ref.left, f.sib);
      }
      balance := Rebalance(slot, direction, updateOp, t);
      if fs != [] {
        ghost var f := fs[|fs| - 1];
        assert Linked(if f.left then f.ref.right else f.ref.left, f.sib);
        assert PathLinked(front);
      }
    }

    lemma {:induction false} AtPlug(fs: seq<Frame<V>>, xs: seq<Frame<V>>, t: Tree<V>)
      ensures At(fs + xs, t) <==> At(fs, Plug(xs, t))
      decreases |xs|
    {
      if xs == [] {
        assert fs + xs == fs;
      } else {
        var f, front := xs[|xs| - 1], xs[..|xs| - 1];
        assert (fs + xs)[..|fs + xs| - 1] == fs + front;
        AtPlug(fs, front, Step(f, t));
        AtStep(fs + front, f, t);
        assert fs + xs == fs + front + [f];
      }
    }

    lemma AtStep(fs: seq<Frame<V>>, f: Frame<V>, t: Tree<V>)
      ensures At(fs + [f], t) <==> At(fs, Step(f, t))
    {
      var gs := fs + [f];
      assert gs[..|fs|] == fs && gs[|fs|] == f;
      assert Objs(Step(f, t)) == Objs(t) + {f.ref} + Objs(f.sib);
      assert PathObjs(gs) == PathObjs(fs) + {f.ref} + Objs(f.sib);
      if At(gs, t) { AtUp(gs, t); }
      if At(fs, Step(f, t)) {
        AtDown(fs, Step(f, t), f.left);
        assert FrameOf(Step(f, t), f.left) == f;
      }
    }

    // ---------- updates of the path and of the tree below it ----------

    /** Hangs `t`, rooted at `node`, into the slot at the end of a path. */
    method Hang(slot: Slot<V>, node: MapNode?<V>, ghost fs: seq<Frame<V>>, ghost t: Tree<V>)
      requires PathLinked(fs) && PathApart(fs, Objs(t)) && this !in Repr && Repr == PathObjs(fs) + Objs(t)
      requires Distinct(t) && Linked(node, t) && slot == SlotUnder(fs)
      modifies this`root, Owner(slot)
      ensures At(fs, t)
    {
      PathIsApart(fs, Objs(t));
      ghost var front := if fs == [] then [] else fs[..|fs| - 1];
      if fs != [] {
        ghost var f := fs[|fs| - 1];
        PathIsApart(front, Objs(t) + {f.ref} + Objs(f.sib));
        assert FrameLinked(f);
      }
      Set(slot, node);
      if fs != [] {
        ghost var f := fs[|fs| - 1];
        assert FrameLinked(f);
        assert PathLinked(front);
      }
    }

    /** Overwrites the value of the node under the path. */
    method Overwrite(node: MapNode<V>, value: V, ghost fs: seq<Frame<V>>, ghost t: Tree<V>)
      requires At(fs, t) && t.Node? && node == t.ref
      modifies node
      ensures At(fs, t.(value := value))
    {
      AtHolds(fs, t);
      PathIsApart(fs, Objs(t));
      assert Linked(node.left, t.left) && Linked(node.right, t.right) && PathLinked(fs);
      assert Get(SlotUnder(fs)) == node;
      node.value := value;
      assert Linked(node.left, t.left) && Linked(node.right, t.right);
      assert Linked(node, t.(value := value));
      assert Objs(t.(value := value)) == Objs(t);
    }

    // ---------- the way back up ----------

    method StepUp(entry: StackNode<V>, updateOp: int, ghost fs: seq<Frame<V>>, ghost t: Tree<V>) returns (balance: int)
      requires At(fs, t) && fs != []
      requires entry == StackNode(SlotUnder(fs[..|fs| - 1]), Delta(fs[|fs| - 1]))
      requires Pending(Step(fs[|fs| - 1], t), updateOp * Delta(fs[|fs| - 1]))
      modifies this`root, Repr
      ensures At(fs[..|fs| - 1], Climbed(fs, t, updateOp)) && Repr == old(Repr)
      ensures balance == Climbed(fs, t, updateOp).bal
    {
      AtUp(fs, t);
      balance := RebalanceAt(entry.slot, entry.direction, updateOp, fs[..|fs| - 1], Step(fs[|fs| - 1], t));
    }

    /** After an insertion under the path made the subtree grow. At most one node is restructured,
        and then the map is as high as before the insertion. */
    method ClimbGrown(stack: seq<StackNode<V>>, ghost fs: seq<Frame<V>>, ghost t: Tree<V>)
      returns (ghost gs: seq<Frame<V>>, ghost u: Tree<V>, ghost restructured: nat)
      requires At(fs, t) && StackOf(stack, fs) && Growing(fs, t, 1)
      modifies this`root, Repr
      ensures Repr == old(Repr) && At(gs, u) && Avl(Plug(gs, u)) && InOrder(Plug(gs, u)) == InOrder(Plug(fs, t))
      ensures restructured <= 1 && (restructured == 1 ==> Height(Plug(gs, u)) == HeightBefore(fs, t, 1))
    {
      hide Plug, InOrder, Avl, Height, Growing, Shrinking, HeightBefore, Climbed, Pending, Step, Restructures, At;
      var i, newBalance := |stack|, 1;
      gs, u, restructured := fs, t, 0;
      assert fs[..i] == fs;
      while i > 0 && newBalance != 0
        invariant 0 <= i <= |stack| && gs == fs[..i] && Repr == old(Repr) && At(gs, u)
        invariant InOrder(Plug(gs, u)) == InOrder(Plug(fs, t))
        invariant Growing(gs, u, newBalance) && HeightBefore(gs, u, newBalance) == HeightBefore(fs, t, 1)
        invariant restructured <= 1 && (restructured == 1 ==> newBalance == 0)
        decreases i
      {
        i := i - 1;
        GrowUp(gs, u, newBalance);
        ClimbKeeps(gs, u, 1);
        newBalance := StepUp(stack[i], 1, gs, u);
        restructured := restructured + (if Restructures(gs, 1) then 1 else 0);
        gs, u := gs[..i], Climbed(gs, u, 1);
      }
      GrownAtLast(gs, u, newBalance);
    }

    /** After a removal under the path made the subtree shrink: going on only while the balance
        becomes zero leaves every balance exact. */
    method ClimbShrunk(stack: seq<StackNode<V>>, ghost fs: seq<Frame<V>>, ghost t: Tree<V>)
      returns (ghost gs: seq<Frame<V>>, ghost u: Tree<V>)
      requires At(fs, t) && StackOf(stack, fs) && Shrinking(fs, t, 0)
      modifies this`root, Repr
      ensures Repr == old(Repr) && At(gs, u) && Avl(Plug(gs, u)) && InOrder(Plug(gs, u)) == InOrder(Plug(fs, t))
    {
      hide Plug, InOrder, Avl, Height, Growing, Shrinking, HeightBefore, Climbed, Pending, Step, Restructures, At;
      var i, newBalance := |stack|, 0;
      gs, u := fs, t;
      assert fs[..i] == fs;
      while i > 0 && newBalance == 0
        invariant 0 <= i <= |stack| && gs == fs[..i] && Repr == old(Repr) && At(gs, u)
        invariant InOrder(Plug(gs, u)) == InOrder(Plug(fs, t)) && Shrinking(gs, u, newBalance)
        decreases i
      {
        i := i - 1;
        ShrinkUp(gs, u);
        ClimbKeeps(gs, u, -1);
        newBalance := StepUp(stack[i], -1, gs, u);
        gs, u := gs[..i], Climbed(gs, u, -1);
      }
      ShrunkAtLast(gs, u, newBalance);
    }

    // ---------- the operations ----------

    ghost predicate Valid()
      reads this, Repr
    {
      this !in Repr && Repr == Objs(tree) && Distinct(tree) && Linked(root, tree) &&
      Avl(tree) && Sorted(InOrder(tree)) && numElements == Size(tree)
    }

    /** The map from keys to values that the tree stands for. */
    ghost function Contents(): map<nat, V>
      reads this
    {
      MapOf(InOrder(tree))
    }

    constructor ()
      ensures Valid() && Contents() == map[] && fresh(Repr)
    {
      root, numElements, tree, Repr := null, 0, Leaf, {};
    }

    /** After a climb: the ghost tree is what the heap holds. */
    ghost method Settle(fs: seq<Frame<V>>, t: Tree<V>)
      requires At(fs, t) && Avl(Plug(fs, t)) && Sorted(InOrder(Plug(fs, t)))
      requires numElements == |InOrder(Plug(fs, t))|
      modifies this`tree
      ensures Valid() && tree == Plug(fs, t) && Contents() == MapOf(InOrder(Plug(fs, t)))
    {
      AtWhole(fs, t);
      SizeIsLength(Plug(fs, t));
      tree := Plug(fs, t);
    }

    /** The path taken by a descent towards `key`, and the subtree it has reached. */
    ghost predicate Descended(key: nat, fs: seq<Frame<V>>, t: Tree<V>)
      reads this, Repr
    {
      this !in Repr && PathObjs(fs) + Objs(t) == Repr && At(fs, t) && Plug(fs, t) == tree &&
      Between(Before(fs), key, After(fs))
    }

    lemma DescendedStart(key: nat)
      requires Valid()
      ensures Descended(key, [], tree)
    {
    }

    lemma DescendedDown(key: nat, fs: seq<Frame<V>>, t: Tree<V>)
      requires Valid() && Descended(key, fs, t) && t.Node? && key != t.key
      ensures Descended(key, fs + [FrameOf(t, key < t.key)], Child(t, key < t.key))
    {
      BetweenDown(fs, t, key);
      AtDown(fs, t, key < t.key);
      var f := FrameOf(t, key < t.key);
      assert PathObjs(fs + [f]) + Objs(Child(t, key < t.key)) == PathObjs(fs) + Objs(t);
    }

    /** Looks a key up in at most as many steps as the tree is high. */
    method GetElement(key: nat) returns (value: Option<V>, ghost steps: nat)
      requires Valid()
      ensures value == if key in Contents() then Some(Contents()[key]) else None
      ensures steps <= Height(tree)
    {
      value, steps := None, 0;
      if root != null {
        var parentNode := root;
        ghost var fs, t := [], tree;
        DescendedStart(key);
        while true
          invariant Descended(key, fs, t) && t.Node? && parentNode == t.ref && |fs| == steps && steps < Height(tree)
          decreases t
        {
          PlugHeight(fs, t);
          assert Linked(parentNode, t);
          if key == parentNode.key { break; }
          var nextNode := if key < parentNode.key then parentNode.left else parentNode.right;
          DescendedDown(key, fs, t);
          ghost var gs, u := fs + [FrameOf(t, key < t.key)], Child(t, key < t.key);
          assert Linked(nextNode, u);
          if nextNode == null {
            MissingKey(gs, key);
            break;
          }
          PlugHeight(gs, u);
          parentNode, fs, t, steps := nextNode, gs, u, steps + 1;
        }
        if parentNode.key == key {
          FoundKey(fs, t);
          value := Some(parentNode.value);
        }
      }
    }

    /** The descent of an insertion: down to the node with the key or to the one it belongs under. */
    method FindParent(key: nat)
      returns (parent: MapNode<V>, stack: seq<StackNode<V>>, ghost fs: seq<Frame<V>>, ghost t: Tree<V>)
      requires Valid() && root != null
      ensures Descended(key, fs, t) && t.Node? && parent == t.ref && OpenStack(stack, fs)
      ensures key == t.key || Child(t, key < t.key).Leaf?
    {
      parent, stack := root, [StackNode(RootSlot, 0)];
      fs, t := [], tree;
      DescendedStart(key);
      while true
        invariant Descended(key, fs, t) && t.Node? && parent == t.ref && OpenStack(stack, fs)
        decreases t
      {
        assert Linked(parent, t);
        if key == parent.key { return; }
        var next := if key < parent.key then parent.left else parent.right;
        DescendedDown(key, fs, t);
        ghost var f := FrameOf(t, key < t.key);
        ghost var gs, u := fs + [f], Child(t, key < t.key);
        assert Linked(next, u);
        if next == null { return; }
        StackClose(stack, fs, f);
        stack := stack[|stack| - 1 := stack[|stack| - 1].(direction := if key < parent.key then -1 else 1)]
               + [StackNode(if key < parent.key then LeftSlot(parent) else RightSlot(parent), 0)];
        assert stack[..|gs|] == stack[..|stack| - 1];
        parent, fs, t := next, gs, u;
      }
    }

    /** The key is there: only its value changes. */
    method ReplaceAt(key: nat, parent: MapNode<V>, value: V, ghost fs: seq<Frame<V>>, ghost t: Tree<V>)
      requires Valid() && Descended(key, fs, t) && t.Node? && parent == t.ref && key == t.key
      modifies this`tree, parent
      ensures Valid() && Repr == old(Repr) && numElements == old(numElements)
      ensures Contents() == old(Contents())[key := value] && Height(tree) == old(Height(tree))
    {
      ghost var u := t.(value := value);
      assert InOrder(u) == InOrder(t.left) + [Entry(t.key, value)] + InOrder(t.right);
      assert Avl(t) <==> Avl(u);
      assert Height(u) == Height(t);
      hide Plug, PathFits, HeightUnder, InOrder, MapOf, Avl, Sorted, Height, Before, After, Linked, Distinct;
      ReplacedContents(fs, t, u, value);
      SizeIsLength(tree);
      PlugAvl(fs, t);
      PlugAvl(fs, u);
      PlugHeight(fs, t);
      PlugHeight(fs, u);
      Overwrite(parent, value, fs, t);
      Settle(fs, u);
    }

    /** What hanging a new node into the empty slot at the end of the path does to the contents. */
    lemma InsertPlan(fs: seq<Frame<V>>, node: MapNode<V>, e: Entry<V>)
      requires Valid() && Descended(e.key, fs, Leaf)
      ensures var u := Node(node, Leaf, e.key, e.value, 0, Leaf); var s := InOrder(Plug(fs, u));
              At(fs, Leaf) && this !in Repr && Growing(fs, u, 1) && HeightBefore(fs, u, 1) == Height(tree) &&
              Sorted(s) && |s| == numElements + 1 && e.key !in Contents() && MapOf(s) == Contents()[e.key := e.value]
    {
      hide Plug, HeightUnder, InOrder, MapOf, Avl, Sorted, Height, Before, After, PathFits, Linked, Distinct;
      var u := Node(node, Leaf, e.key, e.value, 0, Leaf);
      NewNode(node, e);
      AddedContents(fs, e, u);
      SizeIsLength(tree);
      PlugAvl(fs, Leaf);
      PlugHeight(fs, Leaf);
    }

    method HangNew(slot: Slot<V>, node: MapNode<V>, ghost fs: seq<Frame<V>>)
      requires At(fs, Leaf) && slot == SlotUnder(fs)
      requires node !in Repr && node.balance == 0 && node.left == null && node.right == null
      modifies this`root, this`Repr, Owner(slot)
      ensures Repr == old(Repr) + {node} && node.key == old(node.key) && node.value == old(node.value)
      ensures At(fs, Node(node, Leaf, node.key, node.value, 0, Leaf))
    {
      ghost var u := Node(node, Leaf, node.key, node.value, 0, Leaf);
      NewNode(node, Entry(node.key, node.value));
      Repr := Repr + {node};
      PathApartMore(fs, {}, {node});
      assert {} + {node} == Objs(u);
      assert Linked(node.left, Leaf) && Linked(node.right, Leaf);
      assert Linked(node, u);
      Hang(slot, node, fs, u);
    }

    /** The key is new: the node goes into the empty slot at the end of the path. */
    method InsertAt(slot: Slot<V>, node: MapNode<V>, stack: seq<StackNode<V>>, ghost fs: seq<Frame<V>>)
      returns (ghost restructured: nat)
      requires Valid() && Descended(node.key, fs, Leaf) && slot == SlotUnder(fs) && StackOf(stack, fs)
      requires node !in Repr && node.balance == 0 && node.left == null && node.right == null
      modifies this, Repr, node
      ensures Valid() && Repr == old(Repr) + {node} && numElements == old(numElements) + 1
      ensures old(node.key) !in old(Contents())
      ensures Contents() == old(Contents())[old(node.key) := old(node.value)]
      ensures restructured <= 1 && (restructured == 1 ==> Height(tree) == old(Height(tree)))
    {
      hide *;
      InsertPlan(fs, node, Entry(node.key, node.value));
      SlotIsInside(fs, Leaf);
      ghost var u := Node(node, Leaf, node.key, node.value, 0, Leaf);
      HangNew(slot, node, fs);
      ghost var gs, w;
      gs, w, restructured := ClimbGrown(stack, fs, u);
      AtIsApart(gs, w);
      numElements := numElements + 1;
      Settle(gs, w);
    }

    /** Stores the value under the key; at most one node is restructured. */
    method SetElement(key: nat, value: V) returns (oldValue: Option<V>, ghost restructured: nat)
      requires Valid()
      modifies this, Repr
      ensures Valid() && fresh(Repr - old(Repr))
      ensures Contents() == old(Contents())[key := value]
      ensures oldValue == if key in old(Contents()) then Some(old(Contents()[key])) else None
      ensures numElements == old(numElements) + if key in old(Contents()) then 0 else 1
      ensures restructured <= 1 && (restructured == 1 ==> Height(tree) == old(Height(tree)))
    {
      hide Plug, HeightUnder, InOrder, MapOf, Avl, Sorted, Height, Before, After, PathFits, Distinct, Size;
      var newNode := new MapNode(key, value);
      oldValue, restructured := None, 0;
      if root == null {
        DescendedStart(key);
        restructured := InsertAt(RootSlot, newNode, [], []);
      } else {
        var parent, stack; ghost var fs, t;
        parent, stack, fs, t := FindParent(key);
        assert Linked(parent, t);
        if key == parent.key {
          FoundKey(fs, t);
          oldValue := Some(parent.value);
          ReplaceAt(key, parent, value, fs, t);
        } else {
          var left := key < parent.key;
          DescendedDown(key, fs, t);
          StackClose(stack, fs, FrameOf(t, left));
          stack := stack[|stack| - 1 := stack[|stack| - 1].(direction := if left then -1 else 1)];
          restructured := InsertAt(if left then LeftSlot(parent) else RightSlot(parent), newNode, stack,
                                   fs + [FrameOf(t, left)]);
        }
      }
    }

    /** The descent of a removal: to the node with the key or to where it would belong, with the
        node above it; the root is its own parent. */
    method FindRemoved(key: nat)
      returns (parent: MapNode<V>, node: MapNode<V>, stack: seq<StackNode<V>>, ghost fs: seq<Frame<V>>,
               ghost t: Tree<V>)
      requires Valid() && root != null
      ensures Descended(key, fs, t) && t.Node? && node == t.ref && StackOf(stack, fs)
      ensures key == t.key || Child(t, key < t.key).Leaf?
      ensures if fs == [] then parent == node else parent == fs[|fs| - 1].ref != node
    {
      parent, stack, fs, t := root, [], [], tree;
      DescendedStart(key);
      assert Linked(parent, t);
      var child := if key < parent.key then parent.left else parent.right;
      assert Linked(child, Child(t, key < t.key));
      if child != null && key != parent.key {
        DescendedDown(key, fs, t);
        fs, t := fs + [FrameOf(t, key < t.key)], Child(t, key < t.key);
        parent, node, stack, fs, t := FindBelow(key, parent, child, fs, t);
      } else {
        node := parent;
      }
    }

    /** What the heap holds where a descent has got to. */
    lemma Reached(key: nat, fs: seq<Frame<V>>, t: Tree<V>)
      requires Descended(key, fs, t) && t.Node?
      ensures t.ref.key == t.key && (fs != [] ==> fs[|fs| - 1].ref != t.ref)
      ensures forall left: bool ::
                (if left then t.ref.left else t.ref.right) ==
                (if Child(t, left).Leaf? then null else Child(t, left).ref)
    {
      PathIsApart(fs, Objs(t));
      assert Linked(t.ref, t) && Linked(t.ref.left, t.left) && Linked(t.ref.right, t.right);
    }

    /** The descent below the root. */
    method FindBelow(key: nat, root': MapNode<V>, child: MapNode<V>, ghost fs0: seq<Frame<V>>, ghost t0: Tree<V>)
      returns (parent: MapNode<V>, node: MapNode<V>, stack: seq<StackNode<V>>, ghost fs: seq<Frame<V>>,
               ghost t: Tree<V>)
      requires Valid() && Descended(key, fs0, t0) && t0.Node? && child == t0.ref && key != root'.key
      requires |fs0| == 1 && root' == fs0[0].ref && fs0[0].left == (key < root'.key)
      ensures Descended(key, fs, t) && t.Node? && node == t.ref && StackOf(stack, fs)
      ensures key == t.key || Child(t, key < t.key).Leaf?
      ensures fs != [] && parent == fs[|fs| - 1].ref != node
    {
      hide Descended, Linked, StackOf, Valid;
      StackStart(fs0[..0]);
      parent, node, stack, fs, t := root', child, [StackNode(RootSlot, 0)], fs0, t0;
      while true
        invariant Descended(key, fs, t) && t.Node? && node == t.ref && key != parent.key
        invariant fs != [] && OpenStack(stack, fs[..|fs| - 1])
        invariant parent == fs[|fs| - 1].ref && fs[|fs| - 1].left == (key < parent.key)
        decreases t
      {
        Reached(key, fs, t);
        StackClose(stack, fs[..|fs| - 1], fs[|fs| - 1]);
        assert fs[..|fs| - 1] + [fs[|fs| - 1]] == fs;
        if key == node.key { break; }
        var next := if key < node.key then node.left else node.right;
        DescendedDown(key, fs, t);
        ghost var gs, u := fs + [FrameOf(t, key < t.key)], Child(t, key < t.key);
        if next == null { break; }
        stack := stack[|stack| - 1 := stack[|stack| - 1].(direction := if key < parent.key then -1 else 1)]
               + [StackNode(if key < parent.key then LeftSlot(parent) else RightSlot(parent), 0)];
        assert stack[..|fs|] == stack[..|stack| - 1] && gs[..|gs| - 1] == fs;
        parent, node, fs, t := node, next, gs, u;
      }
      stack := stack[|stack| - 1 := stack[|stack| - 1].(direction := if key < parent.key then -1 else 1)];
    }

    /** No right subtree: the left one moves up. */
    method MoveLeftUp(slot: Slot<V>, node: MapNode<V>, ghost fs: seq<Frame<V>>, ghost t: Tree<V>)
      requires At(fs, t) && t.Node? && node == t.ref && t.right.Leaf? && slot == SlotUnder(fs)
      modifies this`root, this`Repr, Owner(slot)
      ensures At(fs, t.left) && Repr == old(Repr) - {node}
    {
      PathIsApart(fs, Objs(t));
      PathApartLess(fs, Objs(t), Objs(t.left));
      assert Linked(node.left, t.left);
      var replacement := node.left;
      Repr := Repr - {node};
      Hang(slot, replacement, fs, t.left);
    }

    /** The right child has no left subtree: it takes the node's place. */
    method MoveRightUp(slot: Slot<V>, node: MapNode<V>, ghost fs: seq<Frame<V>>, ghost t: Tree<V>)
      requires At(fs, t) && t.Node? && node == t.ref && t.right.Node? && t.right.left.Leaf? && slot == SlotUnder(fs)
      modifies this`root, this`Repr, Owner(slot), node.right
      ensures At(fs, RightUp(t)) && Repr == old(Repr) - {node}
    {
      hide PathObjs, PathApart;
      RightUpNodes(fs, t);
      hide Distinct, Objs;
      ghost var r := t.right;
      assert Linked(node.left, t.left) && Linked(node.right, r);
      assert Linked(r.ref.right, r.right);
      var replacement := node.right;
      replacement.left := node.left;
      replacement.balance := node.balance;
      assert Linked(replacement.left, t.left) && Linked(replacement.right, r.right);
      assert Linked(replacement, RightUp(t));
      Repr := Repr - {node};
      Hang(slot, replacement, fs, RightUp(t));
    }

    /** The descent to the smallest node of the right subtree, from the node `t` to be removed. */
    method FindSmallest(slot: Slot<V>, node: MapNode<V>, stack: seq<StackNode<V>>, ghost fs: seq<Frame<V>>,
                        ghost t: Tree<V>)
      returns (parent: MapNode<V>, smallest: MapNode<V>, stack': seq<StackNode<V>>, ghost xs: seq<Frame<V>>,
               ghost m: Tree<V>)
      requires At(fs, t) && t.Node? && node == t.ref && t.right.Node? && t.right.left.Node? && slot == SlotUnder(fs)
      requires StackOf(stack, fs)
      ensures m.Node? && m.left.Leaf? && smallest == m.ref && LeftRun(xs) && Plug(xs, m) == t.right
      ensures At(fs + [FrameOf(t, false)] + xs, m) && xs != [] && parent == xs[|xs| - 1].ref
      ensures StackOf(stack', fs + [FrameOf(t, false)] + xs)
    {
      hide PathObjs, PathApart, PathLinked, Objs, Distinct, StackOf;
      // the second of these slots will be known only once the smallest node is
      stack' := stack + [StackNode(slot, 1)] + [StackNode(RightSlot(node), -1)];
      StackPush(stack, fs, FrameOf(t, false));
      StackPush(stack + [StackNode(slot, 1)], fs + [FrameOf(t, false)], FrameOf(t.right, true));
      AtDown(fs, t, false);
      ghost var top := fs + [FrameOf(t, false)];
      assert Linked(node, t) && Linked(node.right, t.right);
      parent := node.right;
      assert Linked(parent.left, t.right.left);
      smallest := parent.left;
      AtDown(top, t.right, true);
      xs, m := [FrameOf(t.right, true)], t.right.left;
      PlugDown([], t.right, true);
      assert [] + xs == xs;
      while true
        invariant At(top + xs, m) && m.Node? && smallest == m.ref && LeftRun(xs) && Plug(xs, m) == t.right
        invariant xs != [] && parent == xs[|xs| - 1].ref
        invariant StackOf(stack', top + xs)
        decreases m
      {
        assert Linked(smallest, m) && Linked(smallest.left, m.left);
        var next := smallest.left;
        if next == null { return; }
        assert SlotUnder(top + xs) == LeftSlot(parent) by { assert (top + xs)[|top + xs| - 1] == xs[|xs| - 1]; }
        StackPush(stack', top + xs, FrameOf(m, true));
        stack' := stack' + [StackNode(LeftSlot(parent), -1)];
        AtDown(top + xs, m, true);
        assert top + xs + [FrameOf(m, true)] == top + (xs + [FrameOf(m, true)]);
        PlugDown(xs, m, true);
        parent, smallest, xs, m := smallest, next, xs + [FrameOf(m, true)], m.left;
      }
    }

    /** The smallest node `m` of the right subtree takes the node's place, and its right subtree
        takes its own. */
    method MoveSmallestUp(slot: Slot<V>, node: MapNode<V>, parent: MapNode<V>, replacement: MapNode<V>,
                          ghost fs: seq<Frame<V>>, ghost t: Tree<V>, ghost xs: seq<Frame<V>>, ghost m: Tree<V>)
      requires t.Node? && m.Node? && m.left.Leaf? && t.right == Plug(xs, m) && LeftRun(xs) && xs != []
      requires At(fs, t) && At(fs + [FrameOf(t, false)] + xs, m) && slot == SlotUnder(fs)
      requires node == t.ref && replacement == m.ref && parent == xs[|xs| - 1].ref
      modifies this`root, this`Repr, Repr
      ensures At(fs + [FrameOf(SmallestUp(t, xs, m), false)] + xs, m.right) && Repr == old(Repr) - {node}
    {
      SmallestReady(fs, t, xs, m);
      hide *;
      UnhookSmallest(parent, replacement, fs, t, xs, m);
      TakeOver(slot, node, replacement, fs, t.(right := Plug(xs, m.right)), m);
      Replugged(fs, t, xs, m);
    }

    lemma SmallestReady(fs: seq<Frame<V>>, t: Tree<V>, xs: seq<Frame<V>>, m: Tree<V>)
      requires t.Node? && m.Node? && m.left.Leaf? && t.right == Plug(xs, m) && xs != []
      requires At(fs, t) && At(fs + [FrameOf(t, false)] + xs, m)
      ensures m.ref in Repr && m.ref != t.ref && Owner(SlotUnder(fs)) <= Repr
      ensures xs[|xs| - 1].ref in Repr && xs[|xs| - 1].ref != m.ref
    {
      SmallestUpNodes(fs, t, xs, m);
      AtHolds(fs, t);
      var gs := fs + [FrameOf(t, false)] + xs;
      assert gs[|gs| - 1] == xs[|xs| - 1];
      PathHas(gs);
      PathIsApart(gs, Objs(m));
    }

    lemma Replugged(fs: seq<Frame<V>>, t: Tree<V>, xs: seq<Frame<V>>, m: Tree<V>)
      requires t.Node? && m.Node? && At(fs, SmallestUp(t, xs, m))
      ensures At(fs + [FrameOf(SmallestUp(t, xs, m), false)] + xs, m.right)
    {
      var v := SmallestUp(t, xs, m);
      AtDown(fs, v, false);
      AtPlug(fs + [FrameOf(v, false)], xs, m.right);
    }

    method UnhookSmallest(parent: MapNode<V>, smallest: MapNode<V>, ghost fs: seq<Frame<V>>, ghost t: Tree<V>,
                          ghost xs: seq<Frame<V>>, ghost m: Tree<V>)
      requires t.Node? && m.Node? && m.left.Leaf? && t.right == Plug(xs, m) && LeftRun(xs) && xs != []
      requires At(fs + [FrameOf(t, false)] + xs, m) && smallest == m.ref && parent == xs[|xs| - 1].ref != smallest
      modifies this`root, this`Repr, parent
      ensures At(fs, t.(right := Plug(xs, m.right))) && Repr == old(Repr) - {smallest}
      ensures smallest.key == m.key && smallest.value == m.value
    {
      assert Linked(smallest, m);
      hide Plug, PathObjs, PathApart, PathLinked, Distinct, Linked, Objs, At;
      ghost var f := FrameOf(t, false);
      ghost var gs := fs + [f] + xs;
      assert gs[|gs| - 1] == xs[|xs| - 1] && xs[|xs| - 1] in xs;
      Unhook(parent, smallest, gs, m);
      AtPlug(fs + [f], xs, m.right);
      AtStep(fs, f, Plug(xs, m.right));
    }

    /** Takes the node `m`, which has no left subtree, out of the tree. */
    method Unhook(parent: MapNode<V>, smallest: MapNode<V>, ghost fs: seq<Frame<V>>, ghost m: Tree<V>)
      requires fs != [] && fs[|fs| - 1].left && parent == fs[|fs| - 1].ref
      requires At(fs, m) && m.Node? && m.left.Leaf? && smallest == m.ref
      modifies this`root, this`Repr, parent
      ensures At(fs, m.right) && Repr == old(Repr) - {smallest}
    {
      PathIsApart(fs, Objs(m));
      PathApartLess(fs, Objs(m), Objs(m.right));
      assert Linked(smallest, m) && Linked(smallest.right, m.right);
      var child := smallest.right;
      Repr := Repr - {smallest};
      Hang(LeftSlot(parent), child, fs, m.right);
    }

    /** The unhooked node `m` takes the place, the subtrees and the balance of the node `t`. */
    method TakeOver(slot: Slot<V>, node: MapNode<V>, replacement: MapNode<V>, ghost fs: seq<Frame<V>>,
                    ghost t: Tree<V>, ghost m: Tree<V>)
      requires At(fs, t) && t.Node? && node == t.ref && slot == SlotUnder(fs)
      requires m.Node? && replacement == m.ref && replacement !in Repr
      requires replacement.key == m.key && replacement.value == m.value
      modifies this`root, this`Repr, replacement, Owner(slot)
      ensures At(fs, t.(ref := m.ref, key := m.key, value := m.value)) && Repr == old(Repr) - {node} + {replacement}
    {
      ghost var v := t.(ref := m.ref, key := m.key, value := m.value);
      hide PathObjs, PathApart;
      TakenOver(fs, t, m);
      assert Linked(node.left, t.left) && Linked(node.right, t.right);
      hide Distinct, Objs;
      CopyLinks(node, replacement, t);
      Repr := Repr - {node} + {replacement};
      Hang(slot, replacement, fs, v);
    }

    /** The new node gets the links and the balance of the old one. */
    static method CopyLinks(node: MapNode<V>, replacement: MapNode<V>, ghost t: Tree<V>)
      requires t.Node? && Linked(node, t) && replacement !in Objs(t)
      modifies replacement
      ensures replacement.key == old(replacement.key) && replacement.value == old(replacement.value)
      ensures Linked(replacement, t.(ref := replacement, key := replacement.key, value := replacement.value))
    {
      assert Linked(node.left, t.left) && Linked(node.right, t.right);
      replacement.left := node.left;
      replacement.right := node.right;
      replacement.balance := node.balance;
      assert Linked(replacement.left, t.left) && Linked(replacement.right, t.right);
    }

    /** Replaces the node under the path; what is left to do is the way back up. */
    method TakeOut(slot: Slot<V>, node: MapNode<V>, stack: seq<StackNode<V>>, ghost fs: seq<Frame<V>>, ghost t: Tree<V>)
      returns (stack': seq<StackNode<V>>, ghost gs: seq<Frame<V>>, ghost u: Tree<V>)
      requires At(fs, t) && t.Node? && node == t.ref && slot == SlotUnder(fs) && StackOf(stack, fs) && Avl(Plug(fs, t))
      modifies this`root, this`Repr, Repr
      ensures At(gs, u) && StackOf(stack', gs) && Shrinking(gs, u, 0) && InOrder(Plug(gs, u)) == Without(fs, t)
      ensures Repr == old(Repr) - {node} && node in old(Repr)
    {
      ReadyToTake(fs, t);
      hide *;
      if node.right == null {
        LeftMovesUp(fs, t);
        MoveLeftUp(slot, node, fs, t);
        stack', gs, u := stack, fs, t.left;
        return;
      }
      if node.right.left == null {
        RightMovesUp(fs, t);
        StackPush(stack, fs, FrameOf(RightUp(t), false));
        MoveRightUp(slot, node, fs, t);
        AtDown(fs, RightUp(t), false);
        stack', gs, u := stack + [StackNode(slot, 1)], fs + [FrameOf(RightUp(t), false)], t.right.right;
      } else {
        stack', gs, u := TakeOutFar(slot, node, stack, fs, t);
      }
    }

    /** The case where the replacement is further down. */
    method TakeOutFar(slot: Slot<V>, node: MapNode<V>, stack: seq<StackNode<V>>, ghost fs: seq<Frame<V>>,
                      ghost t: Tree<V>)
      returns (stack': seq<StackNode<V>>, ghost gs: seq<Frame<V>>, ghost u: Tree<V>)
      requires At(fs, t) && t.Node? && node == t.ref && slot == SlotUnder(fs) && StackOf(stack, fs) && Avl(Plug(fs, t))
      requires t.right.Node? && t.right.left.Node?
      modifies this`root, this`Repr, Repr
      ensures At(gs, u) && StackOf(stack', gs) && Shrinking(gs, u, 0) && InOrder(Plug(gs, u)) == Without(fs, t)
      ensures Repr == old(Repr) - {node}
    {
      ghost var n := |fs|;
      assert |stack| == n;
      hide *;
      var parent, replacement; ghost var xs, m;
      parent, replacement, stack', xs, m := FindSmallest(slot, node, stack, fs, t);
      SmallestMovesUp(fs, t, xs, m);
      ghost var g := FrameOf(SmallestUp(t, xs, m), false);
      RightFrames(t, xs, m);
      StackPatched(stack', fs, FrameOf(t, false), g, xs);
      MoveSmallestUp(slot, node, parent, replacement, fs, t, xs, m);
      stack' := stack'[|stack| + 1 := stack'[|stack| + 1].(slot := RightSlot(replacement))];
      gs, u := fs + [g] + xs, m.right;
    }

    lemma RightFrames(t: Tree<V>, xs: seq<Frame<V>>, m: Tree<V>)
      requires t.Node? && m.Node?
      ensures !FrameOf(t, false).left
      ensures var g := FrameOf(SmallestUp(t, xs, m), false); !g.left && g.ref == m.ref
    {
    }

    lemma ReadyToTake(fs: seq<Frame<V>>, t: Tree<V>)
      requires At(fs, t) && t.Node?
      ensures t.ref in Repr && Owner(SlotUnder(fs)) <= Repr && (t.right.Leaf? <==> t.ref.right == null)
      ensures t.right.Node? ==>
                t.ref.right == t.right.ref && t.right.ref in Repr && (t.right.left.Leaf? <==> t.ref.right.left == null)
    {
      AtHolds(fs, t);
      assert Linked(t.ref, t) && Linked(t.ref.right, t.right);
      if t.right.Node? { assert Linked(t.ref.right.left, t.right.left) && t.right.ref in Objs(t); }
    }

    /** Which pointer of its parent leads to the node under the path. */
    lemma SideOfNode(fs: seq<Frame<V>>, t: Tree<V>)
      requires At(fs, t) && t.Node? && fs != []
      ensures var f := fs[|fs| - 1]; f.left == (f.ref.left == t.ref)
    {
      PathIsApart(fs, Objs(t));
      var f := fs[|fs| - 1];
      assert FrameLinked(f) && Get(SlotUnder(fs)) == t.ref;
      assert f.sib.Node? ==> f.sib.ref in Objs(f.sib);
    }

    lemma KeyIsMissing(key: nat, fs: seq<Frame<V>>, t: Tree<V>)
      requires Valid() && Descended(key, fs, t)
      requires t.Node? ==> key != t.key && Child(t, key < t.key).Leaf?
      ensures key !in Contents() && Contents() - {key} == Contents()
    {
      if t.Node? {
        DescendedDown(key, fs, t);
        MissingKey(fs + [FrameOf(t, key < t.key)], key);
      } else {
        MissingKey(fs, key);
      }
    }

    lemma RemovalPlan(key: nat, fs: seq<Frame<V>>, t: Tree<V>)
      requires Valid() && Descended(key, fs, t) && t.Node? && key == t.key
      ensures At(fs, t) && this !in Repr && Avl(Plug(fs, t)) && t.ref in Repr && t.ref.value == t.value
      ensures key in Contents() && Contents()[key] == t.value && numElements > 0
      ensures var s := Without(fs, t); Sorted(s) && |s| == numElements - 1 && MapOf(s) == Contents() - {key}
    {
      assert Linked(t.ref, t);
      RemovedContents(fs, t);
      SizeIsLength(tree);
    }

    /** Takes the key out of the map. */
    method RemoveElement(key: nat) returns (value: Option<V>)
      requires Valid()
      modifies this, Repr
      ensures Valid() && Repr <= old(Repr)
      ensures Contents() == old(Contents()) - {key}
      ensures value == if key in old(Contents()) then Some(old(Contents()[key])) else None
      ensures numElements == old(numElements) - if key in old(Contents()) then 1 else 0
    {
      value := None;
      if root == null {
        DescendedStart(key);
        KeyIsMissing(key, [], tree);
      } else {
        var parent, node, stack; ghost var fs, t;
        parent, node, stack, fs, t := FindRemoved(key);
        assert Linked(node, t);
        if key == node.key {
          RemovalPlan(key, fs, t);
          if fs != [] { SideOfNode(fs, t); }
          var slot := if node == parent then RootSlot
                      else if node == parent.left then LeftSlot(parent) else RightSlot(parent);
          assert slot == SlotUnder(fs) && At(fs, t);
          value := Some(node.value);
          RemoveAt(key, slot, node, stack, fs, t);
        } else {
          KeyIsMissing(key, fs, t);
        }
      }
    }

    method RemoveAt(key: nat, slot: Slot<V>, node: MapNode<V>, stack: seq<StackNode<V>>, ghost fs: seq<Frame<V>>,
                    ghost t: Tree<V>)
      requires Valid() && Descended(key, fs, t) && t.Node? && node == t.ref && key == t.key
      requires slot == SlotUnder(fs) && StackOf(stack, fs)
      modifies this, Repr
      ensures Valid() && Repr == old(Repr) - {node} && numElements == old(numElements) - 1
      ensures Contents() == old(Contents()) - {key}
    {
      hide *;
      RemovalPlan(key, fs, t);
      var stack'; ghost var gs, u;
      stack', gs, u := TakeOut(slot, node, stack, fs, t);
      gs, u := ClimbShrunk(stack', gs, u);
      AtIsApart(gs, u);
      numElements := numElements - 1;
      Settle(gs, u);
    }
  }
}

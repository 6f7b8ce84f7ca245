/** Runs of the priority queue: whatever is pushed, shifted, removed and moved, in any order, the queue on the
    heap does what a list does. */
module QueueRuns {
  import opened Wrappers
  import opened LinkedLists
  import opened PriorityOrder
  import opened PriorityQueues
  import Sequences

  datatype Operation<V> =
    | Push(priority: nat, id: string, value: V)
    | Shift
    | Remove(id: string)
    | SetPriority(id: string, priority: nat)

  type State<V> = seq<Ranked<Entry<V>>>

  /** The place of the first entry with an id, or the length. */
  ghost function Where<V>(s: State<V>, id: string): (j: nat)
    ensures j <= |s|
  {
    if s == [] || s[0].item.id == id then 0 else 1 + Where(s[1..], id)
  }

  /** An id is pushed once, and has a priority to change only while it is in the queue. */
  ghost predicate Allowed<V>(s: State<V>, op: Operation<V>) {
    (op.Push? ==> Where(s, op.id) == |s|) && (op.SetPriority? ==> Where(s, op.id) < |s|)
  }

  ghost function Next<V>(s: State<V>, op: Operation<V>): State<V>
    requires Allowed(s, op)
  {
    match op
    case Push(priority, id, value) => Insert(s, Ranked(priority, Entry(id, value)))
    case Shift => if s == [] then [] else s[1..]
    case Remove(id) => if Where(s, id) == |s| then s else Without(s, Where(s, id))
    case SetPriority(id, priority) => Insert(Without(s, Where(s, id)), Ranked(priority, s[Where(s, id)].item))
  }

  /** What an operation gives back. */
  ghost function Output<V>(s: State<V>, op: Operation<V>): Option<V> {
    if op.Shift? && s != [] then Some(s[0].item.value)
    else if op.Remove? && Where(s, op.id) < |s| then Some(s[Where(s, op.id)].item.value)
    else None
  }

  ghost predicate AllAllowed<V>(s: State<V>, ops: seq<Operation<V>>)
    decreases |ops|
  {
    ops == [] || (Allowed(s, ops[0]) && AllAllowed(Next(s, ops[0]), ops[1..]))
  }

  ghost function After<V>(s: State<V>, ops: seq<Operation<V>>): State<V>
    requires AllAllowed(s, ops)
    decreases |ops|
  {
    if ops == [] then s else After(Next(s, ops[0]), ops[1..])
  }

  ghost function Outputs<V>(s: State<V>, ops: seq<Operation<V>>): seq<Option<V>>
    requires AllAllowed(s, ops)
    decreases |ops|
  {
    if ops == [] then [] else [Output(s, ops[0])] + Outputs(Next(s, ops[0]), ops[1..])
  }

  // ---------- the list and the queue ----------

  ghost predicate DistinctEntries<V>(s: State<V>) {
    forall i, j | 0 <= i < j < |s| :: s[i].item.id != s[j].item.id
  }

  lemma {:induction false} WhereIs<V>(s: State<V>, id: string)
    ensures forall i | 0 <= i < Where(s, id) :: s[i].item.id != id
    ensures Where(s, id) < |s| ==> s[Where(s, id)].item.id == id
  {
    if s != [] && s[0].item.id != id { WhereIs(s[1..], id); }
  }

  lemma WhereOnly<V>(s: State<V>, id: string, j: nat)
    requires DistinctEntries(s) && j < |s| && s[j].item.id == id
    ensures Where(s, id) == j
  {
    WhereIs(s, id);
  }

  lemma NodesAreDistinct<V>(q: PriorityQueue<V>)
    requires q.Valid()
    ensures DistinctEntries(Entries(q.Order())) && Ordered(Entries(q.Order()))
    ensures forall id :: id in q.ids <==> Where(Entries(q.Order()), id) < |q.Order()|
  {
    hide PriorityQueue.Valid, PriorityQueue.Order;
    QueueAgrees(q);
    var s := q.Order();
    forall i, j | 0 <= i < j < |s| ensures Entries(s)[i].item.id != Entries(s)[j].item.id {
      assert IdsIn(s)[i] != IdsIn(s)[j];
    }
    forall id ensures id in q.ids <==> Where(Entries(s), id) < |s| {
      WhereIs(Entries(s), id);
      if id in IdsIn(s) {
        var i :| 0 <= i < |s| && IdsIn(s)[i] == id;
        assert Entries(s)[i].item.id == id;
      }
      if Where(Entries(s), id) < |s| { assert IdsIn(s)[Where(Entries(s), id)] == id; }
    }
  }

  lemma EntriesLess<V>(s: seq<Ranked<QueueNode<V>>>, j: nat)
    requires j < |s|
    ensures Entries(Without(s, j)) == Without(Entries(s), j)
  {
  }

  lemma EntriesTail<V>(s: seq<Ranked<QueueNode<V>>>)
    requires s != []
    ensures Entries(s[1..]) == Entries(s)[1..]
  {
  }

  /** Does one operation on a queue. */
  method Do<V>(q: PriorityQueue<V>, op: Operation<V>) returns (out: Option<V>)
    requires q.Valid() && Allowed(Entries(q.Order()), op)
    modifies q, q.priorities, q.priorities.Repr, q.cells
    ensures q.Valid() && Entries(q.Order()) == Next(old(Entries(q.Order())), op)
    ensures out == Output(old(Entries(q.Order())), op)
    ensures q.priorities == old(q.priorities) && fresh(q.priorities.Repr - old(q.priorities.Repr)) &&
            fresh(q.cells - old(q.cells))
  {
    hide PriorityQueue.Valid, PriorityQueue.Order, Insert, IsWithout, IsMoved, Ordered, DistinctEntries, Where;
    ghost var was := q.Order();
    NodesAreDistinct(q);
    out := None;
    match op {
      case Push(priority, id, value) =>
        ghost var pn := q.Push(priority, id, value);
        EntriesInsert(was, Ranked(priority, pn));
      case Shift =>
        var node := q.ShiftNode();
        if node != null {
          EntriesTail(was);
          out := Some(node.value);
        }
      case Remove(id) =>
        var node; ghost var j;
        node, j := q.RemoveNodeWithId(id);
        if node != null {
          RemovedEntry(was, q.Order(), j, node);
          out := Some(node.value);
        }
      case SetPriority(id, priority) =>
        ghost var pn, j := q.SetPriorityForId(id, priority);
        MovedEntry(was, q.Order(), j, pn, priority);
    }
  }

  lemma RemovedEntry<V>(s: seq<Ranked<QueueNode<V>>>, s': seq<Ranked<QueueNode<V>>>, j: nat, node: QueueNode<V>)
    requires IsWithout(s, s', j, node) && DistinctEntries(Entries(s))
    ensures Where(Entries(s), node.id) == j < |s| && Entries(s)[j].item == Entry(node.id, node.value)
    ensures Entries(s') == Without(Entries(s), j)
  {
    WhereOnly(Entries(s), node.id, j);
    EntriesLess(s, j);
  }

  lemma MovedEntry<V>(s: seq<Ranked<QueueNode<V>>>, s': seq<Ranked<QueueNode<V>>>, j: nat, node: QueueNode<V>,
                      priority: nat)
    requires IsMoved(s, s', j, node, priority) && DistinctEntries(Entries(s))
    ensures Where(Entries(s), node.id) == j < |s|
    ensures Entries(s') == Insert(Without(Entries(s), j), Ranked(priority, Entries(s)[j].item))
  {
    WhereOnly(Entries(s), node.id, j);
    EntriesLess(s, j);
    EntriesInsert(Without(s, j), Ranked(priority, node));
  }

  /** What is still to be done leads to the end of the whole run. */
  ghost predicate Running<V>(all: seq<Operation<V>>, s: State<V>, outs: seq<Option<V>>, rest: seq<Operation<V>>) {
    AllAllowed([], all) && AllAllowed(s, rest) && After([], all) == After(s, rest) &&
    Outputs([], all) == outs + Outputs(s, rest)
  }

  lemma RunStarts<V>(ops: seq<Operation<V>>)
    requires AllAllowed([], ops)
    ensures Running(ops, [], [], ops)
  {
    assert [] + Outputs([], ops) == Outputs([], ops);
  }

  lemma RunStep<V>(all: seq<Operation<V>>, s: State<V>, outs: seq<Option<V>>, rest: seq<Operation<V>>)
    requires Running(all, s, outs, rest) && rest != []
    ensures Allowed(s, rest[0]) && Running(all, Next(s, rest[0]), outs + [Output(s, rest[0])], rest[1..])
  {
    hide Next, Output, Allowed;
    Sequences.Associate(outs, [Output(s, rest[0])], Outputs(Next(s, rest[0]), rest[1..]));
  }

  lemma RunEnds<V>(all: seq<Operation<V>>, s: State<V>, outs: seq<Option<V>>)
    requires Running(all, s, outs, [])
    ensures AllAllowed([], all) && s == After([], all) && outs == Outputs([], all)
  {
    assert outs + [] == outs;
  }

  /** Any run of operations on a new queue. */
  method Run<V>(ops: seq<Operation<V>>) returns (q: PriorityQueue<V>, outs: seq<Option<V>>)
    requires AllAllowed([], ops)
    ensures q.Valid() && Entries(q.Order()) == After([], ops) && outs == Outputs([], ops)
    ensures fresh(q) && fresh(q.priorities) && fresh(q.priorities.Repr) && fresh(q.cells)
  {
    hide *;
    q := new PriorityQueue<V>();
    outs := [];
    NoEntries<V>();
    RunStarts(ops);
    var i := 0;
    assert ops[0..] == ops;
    while i < |ops|
      invariant 0 <= i <= |ops| && q.Valid() && fresh(q) && fresh(q.priorities) && fresh(q.priorities.Repr) &&
                fresh(q.cells)
      invariant Running(ops, Entries(q.Order()), outs, ops[i..])
    {
      ghost var s := Entries(q.Order());
      RunStep(ops, s, outs, ops[i..]);
      var out := Do(q, ops[i]);
      assert ops[i..][1..] == ops[i + 1..];
      outs, i := outs + [out], i + 1;
    }
    assert ops[i..] == [];
    RunEnds(ops, Entries(q.Order()), outs);
  }

  lemma NoEntries<V>()
    ensures Entries<V>([]) == []
  {
  }

  // ---------- first in, first out ----------

  /** The entry `j` leaves the others of its priority in their order, and no other priority is touched. */
  lemma OfPriorityLess<V>(s: State<V>, j: nat, k: nat)
    requires j < |s|
    ensures var front := |OfPriority(s[..j], k)|;
            s[j].priority == k ==> front < |OfPriority(s, k)| && OfPriority(s, k)[front] == s[j].item
    ensures OfPriority(Without(s, j), k) ==
            if s[j].priority == k then Without(OfPriority(s, k), |OfPriority(s[..j], k)|) else OfPriority(s, k)
  {
    hide OfPriority;
    var front, back := OfPriority(s[..j], k), OfPriority(s[j + 1..], k);
    SplitAt(s, j, k);
    OfPriorityAppend(s[..j], s[j + 1..], k);
    if s[j].priority == k { MiddleOut(front, s[j].item, back); }
  }

  lemma SplitAt<V>(s: State<V>, j: nat, k: nat)
    requires j < |s|
    ensures OfPriority(s, k) ==
            OfPriority(s[..j], k) +
            ((if s[j].priority == k then [s[j].item] else []) + OfPriority(s[j + 1..], k))
  {
    var rest := s[j..];
    assert s == s[..j] + rest && rest[0] == s[j] && rest[1..] == s[j + 1..];
    OfPriorityAppend(s[..j], rest, k);
  }

  lemma MiddleOut<T>(front: seq<T>, x: T, back: seq<T>)
    ensures var s := front + ([x] + back);
            |front| < |s| && s[|front|] == x && Without(s, |front|) == front + back
  {
  }

  /** Within a priority the queue is first in, first out: a push and a change of priority go to the end, a shift
      takes the first, and the others keep their order. */
  lemma NextIsFifo<V>(s: State<V>, op: Operation<V>, k: nat)
    requires Ordered(s) && Allowed(s, op)
    ensures Ordered(Next(s, op))
    ensures op.Push? ==>
              OfPriority(Next(s, op), k) ==
              OfPriority(s, k) + if op.priority == k then [Entry(op.id, op.value)] else []
    ensures op.Shift? && s != [] ==>
              OfPriority(s, k) == (if s[0].priority == k then [s[0].item] else []) + OfPriority(Next(s, op), k)
    ensures op.SetPriority? ==>
              var j := Where(s, op.id);
              OfPriority(Next(s, op), k) ==
              OfPriority(Without(s, j), k) + if op.priority == k then [s[j].item] else []
  {
    match op {
      case Push(priority, id, value) =>
        InsertOrdered(s, Ranked(priority, Entry(id, value)));
        InsertOfPriority(s, Ranked(priority, Entry(id, value)), k);
      case Shift =>
      case Remove(id) =>
        if Where(s, id) < |s| { LessIsOrdered(s, Where(s, id)); }
      case SetPriority(id, priority) =>
        var j := Where(s, id);
        LessIsOrdered(s, j);
        InsertOrdered(Without(s, j), Ranked(priority, s[j].item));
        InsertOfPriority(Without(s, j), Ranked(priority, s[j].item), k);
    }
  }

  lemma LessIsOrdered<T>(s: seq<Ranked<T>>, j: nat)
    requires Ordered(s) && j < |s|
    ensures Ordered(Without(s, j))
  {
  }

  /** After any run the queue is ordered. */
  lemma {:induction false} AfterIsOrdered<V>(s: State<V>, ops: seq<Operation<V>>)
    requires Ordered(s) && AllAllowed(s, ops)
    ensures Ordered(After(s, ops))
    decreases |ops|
  {
    if ops != [] {
      NextIsFifo(s, ops[0], 0);
      hide Ordered, Next, Allowed;
      AfterIsOrdered(Next(s, ops[0]), ops[1..]);
    }
  }
}

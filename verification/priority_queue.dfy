/** The priority queue: a map from priorities to lists, an index from ids to places in the lists,
    and a pointer to the first element. */
module PriorityQueues {
  import opened Wrappers
  import opened LinkedLists
  import opened LongMaps
  import opened PriorityOrder
  import AvlTree
  import MapWalks
  import Sequences

  class QueueNode<V> {
    var priority: nat
    const id: string
    const value: V

    constructor (priority: nat, id: string, value: V)
      ensures this.priority == priority && this.id == id && this.value == value
    {
      this.priority, this.id, this.value := priority, id, value;
    }
  }

  datatype Place<V> = Place(list: List<QueueNode<V>>, node: ListNode<QueueNode<V>>)

  type Lists<V> = map<nat, List<QueueNode<V>>>
  type Bins<V> = map<nat, seq<QueueNode<V>>>

  /** Everything the list leads to is a cell of the queue. */
  ghost predicate Inside<V>(l: List<QueueNode<V>>, s: seq<QueueNode<V>>, cells: set<object>)
    reads l
  {
    l in cells && (forall n | n in l.nodes :: n in cells) && forall x | x in s :: x in cells
  }

  ghost predicate Reaches<V>(e: Place<V>, cells: set<object>) {
    e.node in cells && e.node.value in cells && e.list in cells
  }

  /** The list holds the bucket of priority `k`, and the index knows the place of each element. */
  ghost predicate Keeps<V>(l: List<QueueNode<V>>, k: nat, s: seq<QueueNode<V>>, ids: map<string, Place<V>>)
    reads l, l.nodes, s
  {
    l.Valid() && |l.nodes| == |s| > 0 &&
    forall i | 0 <= i < |s| ::
      s[i].priority == k && l.nodes[i].value == s[i] &&
      s[i].id in ids && ids[s[i].id] == Place(l, l.nodes[i])
  }

  /** The index entry of an id names a node of that id in the list of its priority. */
  ghost predicate Located<V>(id: string, e: Place<V>, lists: Lists<V>)
    reads e.node, e.node.value, e.list
  {
    e.node.value.id == id &&
    var k := e.node.value.priority;
    k in lists && lists[k] == e.list && e.node in e.list.nodes
  }

  /** The map of lists, the index and the buckets agree. */
  ghost predicate Agree<V>(lists: Lists<V>, ids: map<string, Place<V>>, b: Bins<V>, cells: set<object>)
    reads cells
  {
    lists.Keys == b.Keys &&
    (forall k | k in lists :: lists[k] in cells && Inside(lists[k], b[k], cells) && Keeps(lists[k], k, b[k], ids)) &&
    (forall id | id in ids :: ids[id].node in cells && Reaches(ids[id], cells) && Located(id, ids[id], lists))
  }

  lemma ListsApart<V>(lists: Lists<V>, ids: map<string, Place<V>>, b: Bins<V>, cells: set<object>, j: nat, k: nat)
    requires Agree(lists, ids, b, cells) && j in lists && k in lists && j != k
    ensures lists[j] != lists[k] && forall n | n in lists[j].nodes :: n !in lists[k].nodes
  {
    var l, m := lists[j], lists[k];
    assert Keeps(l, j, b[j], ids) && Keeps(m, k, b[k], ids);
    assert forall i | 0 <= i < |l.nodes| :: l.nodes[i].value == b[j][i] && l.nodes[i].value.priority == j;
    assert forall i | 0 <= i < |m.nodes| :: m.nodes[i].value == b[k][i] && m.nodes[i].value.priority == k;
    assert l.nodes[0].value.priority == j && m.nodes[0].value.priority == k;
  }

  // ---------- one list apart from all others ----------

  /** The nodes `was` hold the bucket `s` of priority `k`. */
  ghost predicate Held<V>(was: seq<ListNode<QueueNode<V>>>, k: nat, s: seq<QueueNode<V>>)
    reads s
  {
    |was| == |s| && forall i | 0 <= i < |s| :: s[i].priority == k && was[i].value == s[i]
  }

  /** The index has exactly these nodes for the list. */
  ghost predicate Indexed<V>(l: List<QueueNode<V>>, was: seq<ListNode<QueueNode<V>>>, s: seq<QueueNode<V>>,
                             ids: map<string, Place<V>>) {
    |was| == |s| &&
    (forall i | 0 <= i < |s| :: s[i].id in ids && ids[s[i].id] == Place(l, was[i])) &&
    forall id | id in ids && ids[id].list == l :: exists i | 0 <= i < |s| :: was[i] == ids[id].node && s[i].id == id
  }

  /** The other lists and their index entries agree, within the cells `rest`. */
  ghost predicate Others<V>(l: List<QueueNode<V>>, k: nat, lists: Lists<V>, ids: map<string, Place<V>>, b: Bins<V>,
                            rest: set<object>)
    reads rest
  {
    lists.Keys == b.Keys &&
    (forall j | j in lists && j != k ::
       lists[j] != l && lists[j] in rest && Inside(lists[j], b[j], rest) && Keeps(lists[j], j, b[j], ids)) &&
    (forall id | id in ids && ids[id].list != l ::
       ids[id].node in rest && Reaches(ids[id], rest) && Located(id, ids[id], lists))
  }

  /** The cells but for the list and its nodes. */
  ghost function Rest<V>(cells: set<object>, l: List<QueueNode<V>>): set<object>
    reads l
  {
    cells - {l} - set n | n in l.nodes :: n
  }

  lemma OneApart<V>(k: nat, lists: Lists<V>, ids: map<string, Place<V>>, b: Bins<V>, cells: set<object>)
    requires Agree(lists, ids, b, cells) && k in lists
    ensures var l := lists[k];
            k in b && l.Valid() && LinkedLists.Distinct(l.nodes) && l in cells && |l.nodes| == |b[k]| > 0 &&
            (forall n | n in l.nodes :: n in cells) && (forall x | x in b[k] :: x in cells) &&
            Held(l.nodes, k, b[k]) && (forall i | 0 <= i < |b[k]| :: l.nodes[i].value == b[k][i]) &&
            Indexed(l, l.nodes, b[k], ids) && Others(l, k, lists, ids, b, Rest(cells, l)) && Rest(cells, l) <= cells &&
            l !in Rest(cells, l) && forall n | n in l.nodes :: n !in Rest(cells, l)
  {
    var l := lists[k];
    var rest := Rest(cells, l);
    assert Inside(l, b[k], cells) && Keeps(l, k, b[k], ids);
    forall j | j in lists && j != k
      ensures lists[j] != l && lists[j] in rest && Inside(lists[j], b[j], rest) && Keeps(lists[j], j, b[j], ids)
    {
      ListsApart(lists, ids, b, cells, j, k);
    }
    forall id | id in ids
      ensures if ids[id].list == l then exists i | 0 <= i < |l.nodes| :: l.nodes[i] == ids[id].node && b[k][i].id == id
              else ids[id].node in rest && Reaches(ids[id], rest) && Located(id, ids[id], lists)
    {
      assert Reaches(ids[id], cells) && Located(id, ids[id], lists);
      var j := ids[id].node.value.priority;
      if j != k {
        ListsApart(lists, ids, b, cells, j, k);
      } else {
        var i :| 0 <= i < |l.nodes| && l.nodes[i] == ids[id].node;
        assert b[k][i] == l.nodes[i].value;
      }
    }
  }

  // ---------- a node is added ----------

  /** Appends a node to a list of the queue. */
  method Append<V>(list: List<QueueNode<V>>, node: ListNode<QueueNode<V>>, ghost lists: Lists<V>,
                   ghost ids: map<string, Place<V>>, ghost b: Bins<V>, ghost cells: set<object>)
    requires Agree(lists, ids, b, cells) && node !in cells && node.value.id !in ids
    requires var k := node.value.priority; k in lists && lists[k] == list
    modifies list, list.nodes, node
    ensures var pn := node.value;
            Agree(lists, ids[pn.id := Place(list, node)], Added(b, pn.priority, pn), cells + {node, pn})
  {
    hide *;
    ghost var k, was, rest := node.value.priority, list.nodes, Rest(cells, list);
    OneApart(k, lists, ids, b, cells);
    list.PushNode(node);
    assert unchanged(rest) && unchanged(b[k]);
    MoreAgrees(list, was, node, lists, ids, b, cells, rest);
  }

  /** The node has been appended to the list, and nothing else has changed. */
  ghost predicate Gained<V>(l: List<QueueNode<V>>, was: seq<ListNode<QueueNode<V>>>, node: ListNode<QueueNode<V>>,
                            lists: Lists<V>, ids: map<string, Place<V>>, b: Bins<V>, cells: set<object>,
                            rest: set<object>)
    reads l, l.nodes, rest, node.value, if node.value.priority in b then b[node.value.priority] else []
  {
    var k := node.value.priority;
    k in lists && lists[k] == l && k in b && Held(was, k, b[k]) && Indexed(l, was, b[k], ids) && b[k] != [] &&
    Others(l, k, lists, ids, b, rest) && rest <= cells && l in cells &&
    (forall n | n in was :: n in cells) && (forall x | x in b[k] :: x in cells) &&
    l.Valid() && l.nodes == was + [node] && node.value.id !in ids
  }

  lemma ListGains<V>(l: List<QueueNode<V>>, was: seq<ListNode<QueueNode<V>>>, node: ListNode<QueueNode<V>>,
                     lists: Lists<V>, ids: map<string, Place<V>>, b: Bins<V>, cells: set<object>, rest: set<object>,
                     j: nat)
    requires Gained(l, was, node, lists, ids, b, cells, rest) && j in lists
    ensures var pn := node.value; var b', cells' := Added(b, pn.priority, pn), cells + {node, pn};
            j in b' && lists[j] in cells' && Inside(lists[j], b'[j], cells') &&
            Keeps(lists[j], j, b'[j], ids[pn.id := Place(l, node)])
  {
    var pn := node.value;
    if j != pn.priority {
      OtherGains(l, j, pn.priority, pn.id, Place(l, node), lists, ids, b, rest);
      hide Others, Held, Indexed, Keeps, List.Valid;
    } else {
      KeepsMore(l, was, node, b[j], ids);
      hide Others, Held, Indexed, Keeps, List.Valid;
    }
  }

  lemma OtherGains<V>(l: List<QueueNode<V>>, j: nat, k: nat, id: string, e: Place<V>, lists: Lists<V>,
                      ids: map<string, Place<V>>, b: Bins<V>, rest: set<object>)
    requires Others(l, k, lists, ids, b, rest) && j in lists && j != k && id !in ids
    ensures lists[j] in rest && Inside(lists[j], b[j], rest) && Keeps(lists[j], j, b[j], ids[id := e])
  {
    assert Inside(lists[j], b[j], rest) && Keeps(lists[j], j, b[j], ids);
  }

  lemma KeepsMore<V>(l: List<QueueNode<V>>, was: seq<ListNode<QueueNode<V>>>, node: ListNode<QueueNode<V>>,
                     s: seq<QueueNode<V>>, ids: map<string, Place<V>>)
    requires Held(was, node.value.priority, s) && Indexed(l, was, s, ids) && l.Valid() && l.nodes == was + [node]
    requires node.value.id !in ids
    ensures var pn := node.value; Keeps(l, pn.priority, s + [pn], ids[pn.id := Place(l, node)])
  {
  }

  lemma PlaceGains<V>(l: List<QueueNode<V>>, was: seq<ListNode<QueueNode<V>>>, node: ListNode<QueueNode<V>>,
                      lists: Lists<V>, ids: map<string, Place<V>>, b: Bins<V>, cells: set<object>, rest: set<object>,
                      id: string)
    requires Gained(l, was, node, lists, ids, b, cells, rest) && id in ids
    ensures var cells' := cells + {node, node.value};
            ids[id].node in cells' && Reaches(ids[id], cells') && Located(id, ids[id], lists)
  {
    if ids[id].list != l {
      assert Reaches(ids[id], rest) && Located(id, ids[id], lists);
    } else {
      var k := node.value.priority;
      var h :| 0 <= h < |was| && was[h] == ids[id].node && b[k][h].id == id;
      assert was[h].value == b[k][h] && l.nodes[h] == was[h];
    }
  }

  lemma AgreeMore<V>(l: List<QueueNode<V>>, was: seq<ListNode<QueueNode<V>>>, node: ListNode<QueueNode<V>>,
                     lists: Lists<V>, ids: map<string, Place<V>>, b: Bins<V>, cells: set<object>, rest: set<object>)
    requires Gained(l, was, node, lists, ids, b, cells, rest)
    ensures var pn := node.value;
            Agree(lists, ids[pn.id := Place(l, node)], Added(b, pn.priority, pn), cells + {node, pn})
  {
    var pn := node.value;
    var k := pn.priority;
    var ids', b', cells' := ids[pn.id := Place(l, node)], Added(b, k, pn), cells + {node, pn};
    assert l.nodes[|l.nodes| - 1] == node && l in cells && k in lists && lists[k] == l;
    assert lists.Keys == b'.Keys;
    forall j | j in lists
      ensures lists[j] in cells' && Inside(lists[j], b'[j], cells') && Keeps(lists[j], j, b'[j], ids')
    {
      hide *;
      ListGains(l, was, node, lists, ids, b, cells, rest, j);
    }
    forall id | id in ids'
      ensures ids'[id].node in cells' && Reaches(ids'[id], cells') && Located(id, ids'[id], lists)
    {
      if id != pn.id {
        hide *;
        PlaceGains(l, was, node, lists, ids, b, cells, rest, id);
      }
    }
    hide Gained, Added, Inside, Keeps, Reaches, Located;
  }

  lemma MoreAgrees<V>(l: List<QueueNode<V>>, was: seq<ListNode<QueueNode<V>>>, node: ListNode<QueueNode<V>>,
                      lists: Lists<V>, ids: map<string, Place<V>>, b: Bins<V>, cells: set<object>, rest: set<object>)
    requires var k := node.value.priority; k in lists && lists[k] == l && k in b && b[k] != []
    requires var k := node.value.priority;
             Held(was, k, b[k]) && Indexed(l, was, b[k], ids) && Others(l, k, lists, ids, b, rest)
    requires rest <= cells && l in cells && node.value.id !in ids
    requires (forall n | n in was :: n in cells) && forall x | x in b[node.value.priority] :: x in cells
    requires l.Valid() && l.nodes == was + [node]
    ensures var pn := node.value;
            Agree(lists, ids[pn.id := Place(l, node)], Added(b, pn.priority, pn), cells + {node, pn})
  {
    assert Gained(l, was, node, lists, ids, b, cells, rest);
    hide Gained;
    AgreeMore(l, was, node, lists, ids, b, cells, rest);
  }

  /** Puts a new list with one node into the queue. */
  lemma NewList<V>(list: List<QueueNode<V>>, node: ListNode<QueueNode<V>>, lists: Lists<V>, ids: map<string, Place<V>>,
                   b: Bins<V>, cells: set<object>)
    requires Agree(lists, ids, b, cells) && list.Valid() && list.nodes == [node] && node.value.id !in ids
    requires node.value.priority !in lists
    ensures var pn := node.value;
            Agree(lists[pn.priority := list], ids[pn.id := Place(list, node)], Added(b, pn.priority, pn),
                  cells + {list, node, pn})
  {
    var pn := node.value;
    var k := pn.priority;
    var lists', ids', b', cells' := lists[k := list], ids[pn.id := Place(list, node)], Added(b, k, pn),
        cells + {list, node, pn};
    forall j | j in lists'
      ensures lists'[j] in cells' && Inside(lists'[j], b'[j], cells') && Keeps(lists'[j], j, b'[j], ids')
    {
      if j != k { assert Inside(lists[j], b[j], cells) && Keeps(lists[j], j, b[j], ids); }
    }
    forall id | id in ids' ensures Reaches(ids'[id], cells') && Located(id, ids'[id], lists') {
      if id != pn.id { assert Reaches(ids[id], cells) && Located(id, ids[id], lists); }
    }
  }

  // ---------- a node is taken away ----------

  /** The lists once the one of priority `k` has lost a node. */
  ghost function ListsLess<V>(lists: Lists<V>, b: Bins<V>, k: nat): Lists<V>
    requires k in b
  {
    if |b[k]| == 1 then lists - {k} else lists
  }

  lemma KeepsLess<V>(l: List<QueueNode<V>>, was: seq<ListNode<QueueNode<V>>>, i: nat, k: nat, s: seq<QueueNode<V>>,
                     ids: map<string, Place<V>>)
    requires Held(was, k, s) && Indexed(l, was, s, ids) && i < |was| && |s| > 1
    requires l.Valid() && l.nodes == Without(was, i)
    requires forall h | 0 <= h < |was| && h != i :: s[h].id != s[i].id
    ensures Keeps(l, k, Without(s, i), ids - {s[i].id})
  {
    var r := Without(s, i);
    forall h | 0 <= h < |r|
      ensures r[h].priority == k && l.nodes[h].value == r[h]
      ensures r[h].id in ids - {s[i].id} && ids[r[h].id] == Place(l, l.nodes[h])
    {
      var g := if h < i then h else h + 1;
      assert r[h] == s[g] && l.nodes[h] == was[g];
    }
  }

  lemma LocatedLess<V>(id: string, l: List<QueueNode<V>>, was: seq<ListNode<QueueNode<V>>>, i: nat, k: nat,
                       lists: Lists<V>, ids: map<string, Place<V>>, b: Bins<V>)
    requires k in lists && lists[k] == l && k in b && Held(was, k, b[k]) && Indexed(l, was, b[k], ids) && i < |was| &&
             l.nodes == Without(was, i)
    requires id in ids && ids[id].list == l && id != b[k][i].id
    ensures Located(id, ids[id], ListsLess(lists, b, k)) && ids[id].node in was && ids[id].node.value in b[k]
  {
    var n := ids[id].node;
    var h :| 0 <= h < |was| && was[h] == n && b[k][h].id == id;
    assert n.value == b[k][h] && h != i;
    assert l.nodes[if h < i then h else h - 1] == n;
  }

  /** The list has lost its node `i`, and nothing else has changed. */
  ghost predicate Lost<V>(l: List<QueueNode<V>>, was: seq<ListNode<QueueNode<V>>>, i: nat, k: nat, lists: Lists<V>,
                          ids: map<string, Place<V>>, b: Bins<V>, cells: set<object>, rest: set<object>)
    reads l, l.nodes, rest, if k in b then b[k] else []
  {
    k in lists && lists[k] == l && k in b && Held(was, k, b[k]) && Indexed(l, was, b[k], ids) && i < |was| &&
    LinkedLists.Distinct(was) && Others(l, k, lists, ids, b, rest) && rest <= cells && l in cells &&
    (forall n | n in was :: n in cells) && (forall x | x in b[k] :: x in cells) &&
    l.Valid() && l.nodes == Without(was, i)
  }

  lemma ListKept<V>(l: List<QueueNode<V>>, was: seq<ListNode<QueueNode<V>>>, i: nat, k: nat, lists: Lists<V>,
                    ids: map<string, Place<V>>, b: Bins<V>, cells: set<object>, rest: set<object>, j: nat)
    requires Lost(l, was, i, k, lists, ids, b, cells, rest) && j in ListsLess(lists, b, k)
    ensures j in Removed(b, k, i) && lists[j] in cells && Inside(lists[j], Removed(b, k, i)[j], cells)
    ensures Keeps(lists[j], j, Removed(b, k, i)[j], ids - {b[k][i].id})
  {
    OneIsGone(l, was, i, b[k], ids);
    hide LinkedLists.Distinct;
    if j == k {
      hide Others;
      KeepsLess(l, was, i, k, b[k], ids);
    } else {
      OtherKept(l, j, b[k][i].id, k, lists, ids, b, rest);
      hide Others, Keeps, Held, Indexed;
    }
  }

  lemma PlaceKept<V>(l: List<QueueNode<V>>, was: seq<ListNode<QueueNode<V>>>, i: nat, k: nat, lists: Lists<V>,
                     ids: map<string, Place<V>>, b: Bins<V>, cells: set<object>, rest: set<object>, id: string)
    requires Lost(l, was, i, k, lists, ids, b, cells, rest) && id in ids && id != b[k][i].id
    ensures ids[id].node in cells && Reaches(ids[id], cells) && Located(id, ids[id], ListsLess(lists, b, k))
  {
    if ids[id].list == l {
      LocatedLess(id, l, was, i, k, lists, ids, b);
    } else {
      assert Reaches(ids[id], rest) && Located(id, ids[id], lists);
    }
  }

  lemma AgreeLess<V>(l: List<QueueNode<V>>, was: seq<ListNode<QueueNode<V>>>, i: nat, k: nat, lists: Lists<V>,
                     ids: map<string, Place<V>>, b: Bins<V>, cells: set<object>, rest: set<object>)
    requires Lost(l, was, i, k, lists, ids, b, cells, rest)
    ensures Agree(ListsLess(lists, b, k), ids - {b[k][i].id}, Removed(b, k, i), cells)
  {
    var gone := b[k][i].id;
    var lists', ids', b' := ListsLess(lists, b, k), ids - {gone}, Removed(b, k, i);
    assert lists'.Keys == b'.Keys;
    assert forall j | j in lists' :: lists'[j] == lists[j];
    forall j | j in lists'
      ensures lists[j] in cells && Inside(lists[j], b'[j], cells) && Keeps(lists[j], j, b'[j], ids')
    {
      hide *;
      ListKept(l, was, i, k, lists, ids, b, cells, rest, j);
    }
    forall id | id in ids' ensures ids[id].node in cells && Reaches(ids[id], cells) && Located(id, ids[id], lists') {
      hide *;
      PlaceKept(l, was, i, k, lists, ids, b, cells, rest, id);
    }
    hide Lost, ListsLess, Removed, Inside, Keeps, Reaches, Located;
  }

  lemma OneIsGone<V>(l: List<QueueNode<V>>, was: seq<ListNode<QueueNode<V>>>, i: nat, s: seq<QueueNode<V>>,
                     ids: map<string, Place<V>>)
    requires Indexed(l, was, s, ids) && i < |was| && LinkedLists.Distinct(was)
    ensures s[i].id in ids && ids[s[i].id] == Place(l, was[i])
    ensures forall h | 0 <= h < |was| && h != i :: s[h].id != s[i].id
  {
    forall h | 0 <= h < |was| && h != i ensures s[h].id != s[i].id {
      assert ids[s[h].id] == Place(l, was[h]);
    }
  }

  lemma OtherKept<V>(l: List<QueueNode<V>>, j: nat, gone: string, k: nat, lists: Lists<V>, ids: map<string, Place<V>>,
                     b: Bins<V>, rest: set<object>)
    requires Others(l, k, lists, ids, b, rest) && j in lists && j != k && gone in ids && ids[gone].list == l
    ensures Inside(lists[j], b[j], rest) && Keeps(lists[j], j, b[j], ids - {gone})
  {
    assert Inside(lists[j], b[j], rest) && Keeps(lists[j], j, b[j], ids);
  }

  lemma FirstIsGone<T>(nodes: seq<ListNode<T>>)
    requires nodes != []
    ensures LinkedLists.At(nodes, 0) == nodes[0]
  {
  }

  method ShiftOff<T>(list: List<T>) returns (node: ListNode<T>)
    requires list.Valid() && list.nodes != []
    modifies list, list.nodes
    ensures list.Valid() && node == old(list.nodes[0]) && list.nodes == Without(old(list.nodes), 0)
    ensures list.length == old(list.length) - 1
  {
    FirstIsGone(list.nodes);
    node := list.ShiftNode();
  }

  /** The structures with and without the element `i` of priority `k`. */
  ghost predicate IsLess<V>(lists: Lists<V>, ids: map<string, Place<V>>, b: Bins<V>, k: nat, i: nat, lists': Lists<V>,
                            ids': map<string, Place<V>>, b': Bins<V>) {
    k in b && i < |b[k]| &&
    lists' == ListsLess(lists, b, k) && ids' == ids - {b[k][i].id} && b' == Removed(b, k, i)
  }

  /** Takes the first node off the list of priority `k`. */
  method TakeFirst<V>(list: List<QueueNode<V>>, ghost k: nat, ghost lists: Lists<V>, ghost ids: map<string, Place<V>>,
                      ghost b: Bins<V>, ghost cells: set<object>, ghost lists': Lists<V>,
                      ghost ids': map<string, Place<V>>, ghost b': Bins<V>)
    returns (node: ListNode<QueueNode<V>>)
    requires Agree(lists, ids, b, cells) && k in lists && lists[k] == list &&
             IsLess(lists, ids, b, k, 0, lists', ids', b')
    modifies list, list.nodes
    ensures old(list.nodes) != [] && node == old(list.nodes[0]) && list.length == old(list.length) - 1
    ensures Agree(lists', ids', b', cells)
  {
    hide *;
    ghost var was, rest := list.nodes, Rest(cells, list);
    OneApart(k, lists, ids, b, cells);
    node := ShiftOff(list);
    assert unchanged(rest) && unchanged(b[k]);
    LessAgrees(list, was, 0, k, lists, ids, b, cells, rest, lists', ids', b');
  }

  /** Takes the node `i` out of the list of priority `k`. */
  method TakeInternal<V>(list: List<QueueNode<V>>, node: ListNode<QueueNode<V>>, ghost i: nat, ghost k: nat,
                         ghost lists: Lists<V>, ghost ids: map<string, Place<V>>, ghost b: Bins<V>,
                         ghost cells: set<object>, ghost lists': Lists<V>, ghost ids': map<string, Place<V>>,
                         ghost b': Bins<V>)
    requires Agree(lists, ids, b, cells) && k in lists && lists[k] == list && i < |list.nodes| && list.nodes[i] == node
    requires IsLess(lists, ids, b, k, i, lists', ids', b')
    modifies list, list.nodes
    ensures list.length == old(list.length) - 1 && Agree(lists', ids', b', cells)
  {
    hide *;
    ghost var was, rest := list.nodes, Rest(cells, list);
    OneApart(k, lists, ids, b, cells);
    list.RemoveInternalNode(node, i);
    assert unchanged(rest) && unchanged(b[k]);
    LessAgrees(list, was, i, k, lists, ids, b, cells, rest, lists', ids', b');
  }

  lemma LessAgrees<V>(l: List<QueueNode<V>>, was: seq<ListNode<QueueNode<V>>>, i: nat, k: nat, lists: Lists<V>,
                      ids: map<string, Place<V>>, b: Bins<V>, cells: set<object>, rest: set<object>, lists': Lists<V>,
                      ids': map<string, Place<V>>, b': Bins<V>)
    requires k in lists && lists[k] == l && k in b && Held(was, k, b[k]) && Indexed(l, was, b[k], ids) && i < |was|
    requires LinkedLists.Distinct(was) && Others(l, k, lists, ids, b, rest) && rest <= cells && l in cells
    requires (forall n | n in was :: n in cells) && forall x | x in b[k] :: x in cells
    requires l.Valid() && l.nodes == Without(was, i) && IsLess(lists, ids, b, k, i, lists', ids', b')
    ensures Agree(lists', ids', b', cells)
  {
    assert Lost(l, was, i, k, lists, ids, b, cells, rest);
    hide Lost;
    AgreeLess(l, was, i, k, lists, ids, b, cells, rest);
  }

  // ---------- looking at the first node ----------

  lemma AgreeAgain<V>(l: List<QueueNode<V>>, k: nat, lists: Lists<V>, ids: map<string, Place<V>>, b: Bins<V>,
                      cells: set<object>, rest: set<object>)
    requires k in lists && lists[k] == l && k in b && b[k] != []
    requires Held(l.nodes, k, b[k]) && Indexed(l, l.nodes, b[k], ids)
    requires Others(l, k, lists, ids, b, rest) && rest <= cells && l in cells
    requires (forall n | n in l.nodes :: n in cells) && forall x | x in b[k] :: x in cells
    requires l.Valid()
    ensures Agree(lists, ids, b, cells)
  {
    forall j | j in lists ensures lists[j] in cells && Inside(lists[j], b[j], cells) && Keeps(lists[j], j, b[j], ids) {
      if j != k { assert Inside(lists[j], b[j], rest) && Keeps(lists[j], j, b[j], ids); }
    }
    forall id | id in ids ensures ids[id].node in cells && Reaches(ids[id], cells) && Located(id, ids[id], lists) {
      if ids[id].list != l {
        assert Reaches(ids[id], rest) && Located(id, ids[id], lists);
      } else {
        var h :| 0 <= h < |l.nodes| && l.nodes[h] == ids[id].node && b[k][h].id == id;
        assert l.nodes[h].value == b[k][h];
      }
    }
  }

  /** Takes the first node off a list and puts it back. */
  method PeekFirst<V>(list: List<QueueNode<V>>, ghost k: nat, ghost lists: Lists<V>, ghost ids: map<string, Place<V>>,
                      ghost b: Bins<V>, ghost cells: set<object>) returns (first: QueueNode<V>)
    requires Agree(lists, ids, b, cells) && k in lists && lists[k] == list && list.nodes != []
    modifies list, list.nodes
    ensures first == old(list.nodes[0].value) && Agree(lists, ids, b, cells)
  {
    hide *;
    ghost var was, rest := list.nodes, Rest(cells, list);
    OneApart(k, lists, ids, b, cells);
    first := ShiftAndUnshift(list);
    assert unchanged(rest) && unchanged(b[k]);
    AgreeAgain(list, k, lists, ids, b, cells, rest);
  }

  method ShiftAndUnshift<T>(list: List<T>) returns (value: T)
    requires list.Valid() && list.nodes != []
    modifies list, list.nodes
    ensures list.Valid() && list.nodes == old(list.nodes) && value == list.nodes[0].value
  {
    FirstIsGone(list.nodes);
    FirstIsOut(list.nodes);
    var node := list.ShiftNode();
    value := node.value;
    list.UnshiftNode(node);
  }

  lemma FirstIsOut<T>(nodes: seq<ListNode<T>>)
    requires nodes != [] && LinkedLists.Distinct(nodes)
    ensures nodes[0] !in Without(nodes, 0) && [nodes[0]] + Without(nodes, 0) == nodes
  {
  }

  // ---------- the first element ----------

  /** The element at the front. */
  ghost function FirstOf<V>(b: Bins<V>): QueueNode?<V>
    requires Filled(b)
  {
    if b.Keys == {} then null else b[Least(b.Keys)][0]
  }

  lemma AgreeIsFilled<V>(lists: Lists<V>, ids: map<string, Place<V>>, b: Bins<V>, cells: set<object>)
    requires Agree(lists, ids, b, cells)
    ensures Filled(b) && (b.Keys == {} <==> ids.Keys == {}) && lists.Keys == b.Keys
    ensures b.Keys != {} ==>
              var m := Least(b.Keys);
              m in lists && FirstOf(b) == b[m][0] && b[m][0].priority == m && b[m][0] in cells
  {
    forall k | k in b ensures b[k] != [] && b[k][0].id in ids && b[k][0].priority == k {
      assert Keeps(lists[k], k, b[k], ids);
    }
    forall id | id in ids ensures ids[id].node.value.priority in b {
      assert Located(id, ids[id], lists);
    }
    if b.Keys != {} {
      var m := Least(b.Keys);
      assert Inside(lists[m], b[m], cells);
    }
  }

  lemma FirstAdded<V>(b: Bins<V>, pn: QueueNode<V>, k: nat)
    requires Filled(b)
    ensures Filled(Added(b, k, pn))
    ensures FirstOf(Added(b, k, pn)) == if b.Keys == {} || k < Least(b.Keys) then pn else FirstOf(b)
  {
    var c := Added(b, k, pn);
    assert c.Keys == b.Keys + {k};
    var m := Least(c.Keys);
    assert m == if b.Keys == {} || k < Least(b.Keys) then k else Least(b.Keys);
  }

  lemma HasItsPriority<V>(lists: Lists<V>, ids: map<string, Place<V>>, b: Bins<V>, cells: set<object>, k: nat, i: nat)
    requires Agree(lists, ids, b, cells) && k in b && i < |b[k]|
    ensures b[k][i].priority == k
  {
    assert Keeps(lists[k], k, b[k], ids);
  }

  lemma FirstRemoved<V>(b: Bins<V>, b': Bins<V>, k: nat, i: nat, node: QueueNode<V>)
    requires IsTaken(b, b', k, i, node) && node != FirstOf(b) && Filled(b')
    ensures FirstOf(b') == FirstOf(b)
  {
    var m := Least(b.Keys);
    assert m in b' && b'[m][0] == b[m][0];
    assert Least(b'.Keys) == m;
  }

  // ---------- the operations on the structures ----------

  /** Puts an element into the list of its priority, which is made if there is none. */
  method Enlist<V>(m: LongMap<List<QueueNode<V>>>, pn: QueueNode<V>, ghost ids: map<string, Place<V>>,
                   ghost b: Bins<V>, ghost cells: set<object>)
    returns (list: List<QueueNode<V>>, node: ListNode<QueueNode<V>>, ghost cells': set<object>)
    requires m.Valid() && m !in cells && cells !! m.Repr && Agree(m.Contents(), ids, b, cells)
    requires pn.id !in ids && pn !in m.Repr
    modifies m, m.Repr, cells
    ensures m.Valid() && pn.priority == old(pn.priority)
    ensures fresh(m.Repr - old(m.Repr)) && fresh(cells' - cells - {pn}) && m !in cells' && cells' !! m.Repr
    ensures Agree(m.Contents(), ids[pn.id := Place(list, node)], Added(b, pn.priority, pn), cells')
  {
    hide *;
    node, list := NewNode(pn);
    ghost var lists := m.Contents();
    var oldList, _ := m.SetElement(pn.priority, list);
    if oldList.Some? {
      list := oldList.value;
      cells' := Rejoin(m, list, node, lists, ids, b, cells);
    } else {
      NewList(list, node, lists, ids, b, cells);
      cells' := cells + {list, node, pn};
    }
  }

  method NewNode<T>(value: T) returns (node: ListNode<T>, list: List<T>)
    ensures fresh(node) && fresh(list) && node.value == value && list.Valid() && list.nodes == [node]
  {
    hide *;
    node := new ListNode(value);
    list := new List<T>();
    list.PushNode(node);
  }

  /** The list that was there before gets the node and its place in the map. */
  method Rejoin<V>(m: LongMap<List<QueueNode<V>>>, list: List<QueueNode<V>>, node: ListNode<QueueNode<V>>,
                   ghost lists: Lists<V>, ghost ids: map<string, Place<V>>, ghost b: Bins<V>, ghost cells: set<object>)
    returns (ghost cells': set<object>)
    requires m.Valid() && m !in cells && cells !! m.Repr && node !in cells && node !in m.Repr &&
             Agree(lists, ids, b, cells)
    requires var k := node.value.priority; k in lists && lists[k] == list && m.Contents()[k := list] == lists
    requires node.value.id !in ids && node.value !in m.Repr
    modifies m, m.Repr, cells, node
    ensures m.Valid() && cells' == cells + {node, node.value} && fresh(m.Repr - old(m.Repr)) && m !in cells' &&
            cells' !! m.Repr
    ensures var pn := node.value;
            pn.priority == old(pn.priority) &&
            Agree(m.Contents(), ids[pn.id := Place(list, node)], Added(b, pn.priority, pn), cells')
  {
    hide *;
    ListInside(node.value.priority, lists, ids, b, cells);
    Append(list, node, lists, ids, b, cells);
    var _, _ := m.SetElement(node.value.priority, list);
    cells' := cells + {node, node.value};
  }

  lemma ListInside<V>(k: nat, lists: Lists<V>, ids: map<string, Place<V>>, b: Bins<V>, cells: set<object>)
    requires Agree(lists, ids, b, cells) && k in lists
    ensures lists[k] in cells && forall n | n in lists[k].nodes :: n in cells
  {
    OneApart(k, lists, ids, b, cells);
  }

  /** A push, with the new first element and the new index entry. */
  method PushInto<V>(m: LongMap<List<QueueNode<V>>>, pn: QueueNode<V>, first: QueueNode?<V>,
                     ids: map<string, Place<V>>, ghost b: Bins<V>, ghost cells: set<object>)
    returns (ids': map<string, Place<V>>, newFirst: QueueNode<V>, ghost b': Bins<V>, ghost cells': set<object>)
    requires m.Valid() && m !in cells && cells !! m.Repr && Agree(m.Contents(), ids, b, cells)
    requires Filled(b) && first == FirstOf(b) && pn.id !in ids && pn !in m.Repr
    modifies m, m.Repr, cells
    ensures m.Valid() && m !in cells' && cells' !! m.Repr && pn.priority == old(pn.priority) &&
            b' == Added(b, pn.priority, pn)
    ensures fresh(m.Repr - old(m.Repr)) && fresh(cells' - cells - {pn}) && HasOneMore(ids, ids', pn.id)
    ensures Agree(m.Contents(), ids', b', cells') && Filled(b') && newFirst == FirstOf(b')
  {
    hide *;
    var list, node;
    list, node, cells' := Enlist(m, pn, ids, b, cells);
    b' := Added(b, pn.priority, pn);
    ids' := ids[pn.id := Place(list, node)];
    OneMore(ids, pn.id, Place(list, node));
    FirstAfterPush(m.Contents(), ids', b, cells', first, pn);
    newFirst := pn;
    if first != null {
      if pn.priority >= first.priority { newFirst := first; }
    }
  }

  lemma FirstAfterPush<V>(lists: Lists<V>, ids: map<string, Place<V>>, b: Bins<V>, cells: set<object>,
                          first: QueueNode?<V>, pn: QueueNode<V>)
    requires Agree(lists, ids, Added(b, pn.priority, pn), cells) && Filled(b) && first == FirstOf(b)
    ensures var b' := Added(b, pn.priority, pn);
            Filled(b') && FirstOf(b') == if first == null || pn.priority < first.priority then pn else first
  {
    FirstAdded(b, pn, pn.priority);
    if first != null { HasItsPriority(lists, ids, Added(b, pn.priority, pn), cells, Least(b.Keys), 0); }
  }

  lemma OneMore<V>(ids: map<string, V>, id: string, v: V)
    ensures HasOneMore(ids, ids[id := v], id)
  {
  }

  lemma IdsOf<V>(ids: map<string, V>, ids': map<string, V>, id: string)
    requires HasOneMore(ids, ids', id)
    ensures ids'.Keys == ids.Keys + {id}
  {
  }

  ghost predicate HasOneMore<V>(ids: map<string, V>, ids': map<string, V>, id: string) {
    ids'.Keys == ids.Keys + {id} && |ids'| == |ids| + if id in ids then 0 else 1
  }

  ghost predicate IsLeast<T>(k: nat, m: map<nat, T>) {
    k in m && forall j | j in m :: k <= j
  }

  lemma LeastKey<T>(k: nat, m: map<nat, T>)
    requires k in m && forall j | j in m :: k <= j
    ensures IsLeast(k, m)
  {
  }

  /** The queue is empty, or the list of the least priority starts with its first element. */
  lemma FirstFacts<V>(lists: Lists<V>, ids: map<string, Place<V>>, b: Bins<V>, cells: set<object>)
    requires Agree(lists, ids, b, cells)
    ensures Filled(b) && lists.Keys == b.Keys && (b == map[] <==> FirstOf(b) == null)
    ensures FirstOf(b) != null ==>
              IsLeast(FirstOf(b).priority, lists) && b.Keys != {} && FirstOf(b).priority == Least(b.Keys)
  {
    AgreeIsFilled(lists, ids, b, cells);
  }

  lemma LeastFacts<V>(k: nat, lists: Lists<V>, ids: map<string, Place<V>>, b: Bins<V>, cells: set<object>)
    requires Agree(lists, ids, b, cells) && IsLeast(k, lists)
    ensures Filled(b) && lists[k].nodes != [] && lists[k].nodes[0].value == FirstOf(b) && k == Least(b.Keys)
    ensures lists[k] in cells && forall n | n in lists[k].nodes :: n in cells
  {
    AgreeIsFilled(lists, ids, b, cells);
    assert k == Least(b.Keys);
    OneApart(k, lists, ids, b, cells);
  }

  /** The element at the front, found through the smallest priority. */
  method SmallestFirst<V>(m: LongMap<List<QueueNode<V>>>, ghost ids: map<string, Place<V>>, ghost b: Bins<V>,
                          ghost cells: set<object>)
    returns (first: QueueNode?<V>)
    requires m.Valid() && m !in cells && cells !! m.Repr && Agree(m.Contents(), ids, b, cells) && Filled(b)
    modifies cells
    ensures m.Valid() && m.Contents() == old(m.Contents()) && Agree(m.Contents(), ids, b, cells) && first == FirstOf(b)
  {
    hide *;
    ghost var lists := m.Contents();
    FirstFacts(lists, ids, b, cells);
    assert lists == map[] ==> b == map[];
    var entry := MapWalks.GetSmallest(m);
    first := null;
    if entry.Some? {
      ghost var k := entry.value.key;
      LeastKey(k, lists);
      LeastFacts(k, lists, ids, b, cells);
      first := PeekFirst(entry.value.value, k, lists, ids, b, cells);
      assert unchanged(m) && unchanged(m.Repr);
    }
  }

  /** Takes the front element: its list leaves the map, and returns unless it has become empty. */
  method ShiftFrom<V>(m: LongMap<List<QueueNode<V>>>, first: QueueNode<V>, ghost ids: map<string, Place<V>>,
                      ghost b: Bins<V>, ghost cells: set<object>)
    returns (node: QueueNode<V>, newFirst: QueueNode?<V>, ghost b': Bins<V>)
    requires m.Valid() && m !in cells && cells !! m.Repr && Agree(m.Contents(), ids, b, cells) && Filled(b) &&
             first == FirstOf(b)
    modifies m, m.Repr, cells
    ensures m.Valid() && cells !! m.Repr && fresh(m.Repr - old(m.Repr)) && node == first
    ensures IsShift(b, b', node) && Agree(m.Contents(), ids - {node.id}, b', cells) && Filled(b') &&
            newFirst == FirstOf(b')
  {
    hide *;
    ghost var lists', ids';
    lists', ids', b' := FrontFacts(first, m.Contents(), ids, b, cells);
    ghost var lists := m.Contents();
    var k := first.priority;
    var list := m.RemoveElement(k);
    var nextList := list.value;
    var smallest := TakeFirst(nextList, k, lists, ids, b, cells, lists', ids', b');
    node := smallest.value;
    FrontGone(k, nextList, lists, lists', ids', b', cells);
    newFirst := Reinsert(m, nextList, k, lists', ids', b', cells);
  }

  /** What taking the front element leads to. */
  lemma FrontFacts<V>(first: QueueNode<V>, lists: Lists<V>, ids: map<string, Place<V>>, b: Bins<V>, cells: set<object>)
    returns (lists': Lists<V>, ids': map<string, Place<V>>, b': Bins<V>)
    requires Agree(lists, ids, b, cells) && Filled(b) && first == FirstOf(b)
    ensures var k := first.priority;
            IsLeast(k, lists) && k in lists && IsLess(lists, ids, b, k, 0, lists', ids', b') &&
            ids' == ids - {first.id} && IsShift(b, b', first) &&
            lists[k].nodes != [] && lists[k].nodes[0].value == first && lists[k] in cells &&
            (forall n | n in lists[k].nodes :: n in cells) &&
            lists[k].length > 0 && lists' == if lists[k].length == 1 then lists - {k} else lists
  {
    var k := first.priority;
    FirstFacts(lists, ids, b, cells);
    LeastFacts(k, lists, ids, b, cells);
    OneApart(k, lists, ids, b, cells);
    assert lists[k].length == |b[k]| && first == b[k][0];
    hide Agree, Held, Indexed, Others, List.Valid;
    lists', ids', b' := ListsLess(lists, b, k), ids - {first.id}, Removed(b, k, 0);
  }

  lemma FrontGone<V>(k: nat, list: List<QueueNode<V>>, lists: Lists<V>, lists': Lists<V>, ids': map<string, Place<V>>,
                     b': Bins<V>, cells: set<object>)
    requires IsLeast(k, lists) && lists[k] == list && lists' == if list.length == 0 then lists - {k} else lists
    requires Agree(lists', ids', b', cells)
    ensures Filled(b') && if list.length == 0 then lists - {k} == lists' else Unlinked(lists - {k}, list, k, lists')
  {
    FirstFacts(lists', ids', b', cells);
    DropThenAdd(lists, k);
  }

  lemma DropThenAdd<K, V>(m: map<K, V>, k: K)
    requires k in m
    ensures (m - {k})[k := m[k]] == m
  {
  }

  /** The list of the front element returns to the map, unless it has become empty. */
  method Reinsert<V>(m: LongMap<List<QueueNode<V>>>, nextList: List<QueueNode<V>>, k: nat, ghost lists: Lists<V>,
                     ghost ids: map<string, Place<V>>, ghost b: Bins<V>, ghost cells: set<object>)
    returns (newFirst: QueueNode?<V>)
    requires m.Valid() && m !in cells && cells !! m.Repr && Agree(lists, ids, b, cells) && Filled(b)
    requires if nextList.length == 0 then m.Contents() == lists else Unlinked(m.Contents(), nextList, k, lists)
    modifies m, m.Repr, cells
    ensures m.Valid() && cells !! m.Repr && fresh(m.Repr - old(m.Repr))
    ensures Agree(m.Contents(), ids, b, cells) && newFirst == FirstOf(b)
  {
    hide *;
    if nextList.length == 0 {
      newFirst := SmallestFirst(m, ids, b, cells);
    } else {
      newFirst := PutBack(m, nextList, k, lists, ids, b, cells);
    }
  }

  /** The list of the least priority is not in the map. */
  ghost predicate Unlinked<V>(less: Lists<V>, list: List<QueueNode<V>>, k: nat, lists: Lists<V>) {
    IsLeast(k, lists) && lists[k] == list && less[k := list] == lists
  }

  lemma UnlinkedFacts<V>(less: Lists<V>, list: List<QueueNode<V>>, k: nat, lists: Lists<V>)
    requires Unlinked(less, list, k, lists)
    ensures IsLeast(k, lists) && k in lists && lists[k] == list && less[k := list] == lists
  {
  }

  method PutBack<V>(m: LongMap<List<QueueNode<V>>>, nextList: List<QueueNode<V>>, k: nat, ghost lists: Lists<V>,
                    ghost ids: map<string, Place<V>>, ghost b: Bins<V>, ghost cells: set<object>)
    returns (newFirst: QueueNode?<V>)
    requires m.Valid() && m !in cells && cells !! m.Repr && Agree(lists, ids, b, cells) && Filled(b)
    requires Unlinked(m.Contents(), nextList, k, lists)
    modifies m, m.Repr, cells
    ensures m.Valid() && cells !! m.Repr && fresh(m.Repr - old(m.Repr))
    ensures Agree(m.Contents(), ids, b, cells) && newFirst == FirstOf(b)
  {
    hide *;
    UnlinkedFacts(m.Contents(), nextList, k, lists);
    LeastFacts(k, lists, ids, b, cells);
    var _, _ := m.SetElement(k, nextList);
    label before:
    newFirst := PeekFirst(nextList, k, lists, ids, b, cells);
    assert unchanged@before(m) && unchanged@before(m.Repr);
  }

  lemma Find<V>(id: string, lists: Lists<V>, ids: map<string, Place<V>>, b: Bins<V>, cells: set<object>)
    returns (i: nat)
    requires Agree(lists, ids, b, cells) && id in ids
    ensures var e := ids[id]; var k := e.node.value.priority;
            k in lists && lists[k] == e.list && k in b && i < |e.list.nodes| == |b[k]| && e.list.nodes[i] == e.node &&
            b[k][i] == e.node.value && b[k][i].id == id && e.list in cells && forall n | n in e.list.nodes :: n in cells
  {
    var e := ids[id];
    assert Located(id, e, lists);
    var k := e.node.value.priority;
    OneApart(k, lists, ids, b, cells);
    i :| 0 <= i < |e.list.nodes| && e.list.nodes[i] == e.node;
  }

  /** Takes the element with the id out of its list, wherever in the queue it is. */
  method RemoveFrom<V>(m: LongMap<List<QueueNode<V>>>, id: string, e: Place<V>, first: QueueNode?<V>,
                       ghost ids: map<string, Place<V>>, ghost b: Bins<V>, ghost cells: set<object>)
    returns (node: QueueNode<V>, newFirst: QueueNode?<V>, ghost k: nat, ghost i: nat, ghost b': Bins<V>)
    requires m.Valid() && m !in cells && cells !! m.Repr && Agree(m.Contents(), ids, b, cells) && Filled(b) &&
             first == FirstOf(b)
    requires id in ids && e == ids[id]
    modifies m, m.Repr, cells
    ensures m.Valid() && m.Repr <= old(m.Repr)
    ensures node.id == id && node in cells && IsTaken(b, b', k, i, node)
    ensures Agree(m.Contents(), ids - {id}, b', cells) && Filled(b') && newFirst == FirstOf(b')
  {
    hide *;
    ghost var lists', ids';
    node := e.node.value;
    k := node.priority;
    i, lists', ids', b' := PlaceFacts(id, m.Contents(), ids, b, cells);
    TakeOut(m, e, i, k, ids, b, cells, lists', ids', b');
    FirstFacts(m.Contents(), ids', b', cells);
    newFirst := first;
    if node == first {
      newFirst := SmallestFirst(m, ids', b', cells);
    } else {
      FirstRemoved(b, b', k, i, node);
    }
  }

  /** What taking the element with the id leads to. */
  lemma PlaceFacts<V>(id: string, lists: Lists<V>, ids: map<string, Place<V>>, b: Bins<V>, cells: set<object>)
    returns (i: nat, lists': Lists<V>, ids': map<string, Place<V>>, b': Bins<V>)
    requires Agree(lists, ids, b, cells) && Filled(b) && id in ids
    ensures var e := ids[id]; var node := e.node.value; var k := node.priority;
            IsLess(lists, ids, b, k, i, lists', ids', b') && ids' == ids - {id} && IsTaken(b, b', k, i, node) &&
            node.id == id && node in cells && k in lists && lists[k] == e.list && i < |e.list.nodes| &&
            e.list.nodes[i] == e.node &&
            e.list in cells && (forall n | n in e.list.nodes :: n in cells) &&
            lists' == if e.list.length == 1 then lists - {k} else lists
  {
    var e := ids[id];
    var k := e.node.value.priority;
    i := Find(id, lists, ids, b, cells);
    OneApart(k, lists, ids, b, cells);
    assert e.list.length == |b[k]| && b[k][i] in cells;
    hide Agree, Held, Indexed, Others, List.Valid;
    lists', ids', b' := ListsLess(lists, b, k), ids - {id}, Removed(b, k, i);
  }

  /** The list goes with its last node. */
  method TakeOut<V>(m: LongMap<List<QueueNode<V>>>, e: Place<V>, ghost i: nat, ghost k: nat,
                    ghost ids: map<string, Place<V>>, ghost b: Bins<V>, ghost cells: set<object>,
                    ghost lists': Lists<V>, ghost ids': map<string, Place<V>>, ghost b': Bins<V>)
    requires m.Valid() && m !in cells && cells !! m.Repr && Agree(m.Contents(), ids, b, cells)
    requires k in m.Contents() && m.Contents()[k] == e.list && k == e.node.value.priority
    requires IsLess(m.Contents(), ids, b, k, i, lists', ids', b')
    requires lists' == if e.list.length == 1 then m.Contents() - {k} else m.Contents()
    requires i < |e.list.nodes| && e.list.nodes[i] == e.node
    requires e.list in cells && forall n | n in e.list.nodes :: n in cells
    modifies m, m.Repr, e.list, e.list.nodes
    ensures m.Valid() && m.Repr <= old(m.Repr) && Agree(m.Contents(), ids', b', cells)
  {
    hide *;
    ghost var lists := m.Contents();
    TakeInternal(e.list, e.node, i, k, lists, ids, b, cells, lists', ids', b');
    assert unchanged(m) && unchanged(m.Repr);
    DropIfEmpty(m, e.list, e.node.value.priority, lists', ids', b', cells);
  }

  method DropIfEmpty<V>(m: LongMap<List<QueueNode<V>>>, list: List<QueueNode<V>>, k: nat, ghost lists': Lists<V>,
                        ghost ids': map<string, Place<V>>, ghost b': Bins<V>, ghost cells: set<object>)
    requires m.Valid() && cells !! m.Repr && m !in cells
    requires Agree(lists', ids', b', cells) && lists' == if list.length == 0 then m.Contents() - {k} else m.Contents()
    modifies m, m.Repr
    ensures m.Valid() && m.Repr <= old(m.Repr) && Agree(m.Contents(), ids', b', cells)
  {
    hide *;
    if list.length == 0 {
      var _ := m.RemoveElement(k);
    }
  }

  /** Writes the priority of an element that is in none of the lists. */
  method SetPriority<V>(pn: QueueNode<V>, priority: nat, ghost lists: Lists<V>, ghost ids: map<string, Place<V>>,
                        ghost b: Bins<V>, ghost cells: set<object>)
    requires Agree(lists, ids, b, cells) && pn.id !in ids && pn in cells
    modifies pn`priority
    ensures pn.priority == priority && Agree(lists, ids, b, cells)
  {
    hide LinkedLists.Distinct, LinkedAt, List.Valid, Filled;
    Outsider(lists, ids, b, cells, pn);
    pn.priority := priority;
    forall k | k in lists ensures lists[k] in cells && Inside(lists[k], b[k], cells) && Keeps(lists[k], k, b[k], ids) {
      assert old(Inside(lists[k], b[k], cells) && Keeps(lists[k], k, b[k], ids));
    }
    forall id | id in ids ensures ids[id].node in cells && Reaches(ids[id], cells) && Located(id, ids[id], lists) {
      assert old(Reaches(ids[id], cells) && Located(id, ids[id], lists));
    }
  }

  // ---------- the queue ----------

  class PriorityQueue<V> {
    var priorities: LongMap<List<QueueNode<V>>>
    var ids: map<string, Place<V>>
    var first: QueueNode?<V>
    var length: nat
    ghost var bins: Bins<V>
    ghost var cells: set<object>

    /** The map of lists and the index agree; the cells are apart from the map's own nodes. */
    ghost predicate Inner()
      reads this`priorities, this`ids, this`bins, this`cells, priorities, priorities.Repr, cells
    {
      this !in cells && this !in priorities.Repr && priorities !in cells && cells !! priorities.Repr &&
      priorities.Valid() && Agree(priorities.Contents(), ids, bins, cells)
    }

    ghost predicate Valid()
      reads this, priorities, priorities.Repr, cells
    {
      Inner() && Filled(bins) && first == FirstOf(bins) && length == |ids|
    }

    /** The queue from front to back. */
    ghost function Order(): seq<Ranked<QueueNode<V>>>
      reads this
    {
      Flat(bins)
    }

    constructor ()
      ensures Valid() && Order() == [] && ids == map[] && fresh(priorities) && fresh(priorities.Repr) && cells == {}
    {
      priorities := new LongMap<List<QueueNode<V>>>();
      ids, first, length, bins, cells := map[], null, 0, map[], {};
    }

    lemma Open()
      requires Valid()
      ensures this !in cells && this !in priorities.Repr && priorities !in cells && cells !! priorities.Repr
      ensures priorities.Valid() && Agree(priorities.Contents(), ids, bins, cells)
      ensures Filled(bins) && first == FirstOf(bins) && length == |ids| && Order() == Flat(bins)
    {
    }

    lemma Close()
      requires this !in cells && this !in priorities.Repr && priorities !in cells && cells !! priorities.Repr
      requires priorities.Valid() && Agree(priorities.Contents(), ids, bins, cells)
      requires Filled(bins) && first == FirstOf(bins) && length == |ids|
      ensures Valid() && Order() == Flat(bins)
    {
    }

    /** Pushes an element, whose id is not in the queue: it goes behind all of its own priority. */
    method PushNode(pn: QueueNode<V>)
      requires Valid() && pn.id !in ids && pn !in priorities.Repr
      modifies this, priorities, priorities.Repr, cells
      ensures Valid() && pn.priority == old(pn.priority)
      ensures Order() == Insert(old(Order()), Ranked(pn.priority, pn))
      ensures HasOneMore(old(ids), ids, pn.id)
      ensures priorities == old(priorities) && fresh(priorities.Repr - old(priorities.Repr)) &&
              fresh(cells - old(cells) - {pn})
    {
      hide *;
      Open();
      FlatAdded(bins, pn.priority, pn);
      var ids', newFirst; ghost var b, cells';
      ids', newFirst, b, cells' := PushInto(priorities, pn, first, ids, bins, cells);
      IdsOf(ids, ids', pn.id);
      ids, first, length, bins, cells := ids', newFirst, length + 1, b, cells';
      Close();
    }

    /** Makes an element and pushes it. */
    method Push(priority: nat, id: string, value: V) returns (ghost pn: QueueNode<V>)
      requires Valid() && id !in ids
      modifies this, priorities, priorities.Repr, cells
      ensures Valid() && fresh(pn) && pn.id == id && pn.value == value
      ensures Order() == Insert(old(Order()), Ranked(priority, pn))
      ensures HasOneMore(old(ids), ids, id)
      ensures priorities == old(priorities) && fresh(priorities.Repr - old(priorities.Repr)) &&
              fresh(cells - old(cells))
    {
      hide Agree, Filled, FirstOf, Added, LongMap.Valid, LongMap.Contents, Inner, Valid, Insert, Order;
      var node := new QueueNode(priority, id, value);
      PushNode(node);
      pn := node;
    }

    /** Takes the element at the front. */
    method ShiftNode() returns (node: QueueNode?<V>)
      requires Valid()
      modifies this, priorities, priorities.Repr, cells
      ensures Valid() && priorities == old(priorities) && fresh(priorities.Repr - old(priorities.Repr)) &&
              cells == old(cells)
      ensures if old(Order()) == [] then node == null && Order() == []
              else node == old(Order())[0].item && Order() == old(Order())[1..]
      ensures ids == old(ids) - (if node == null then {} else {node.id})
      ensures length == old(length) - if node == null then 0 else 1
    {
      hide Agree, Filled, FirstOf, LongMap.Valid, LongMap.Contents, Flat;
      node := null;
      FirstIsIndexed(priorities.Contents(), ids, bins, cells);
      if first != null {
        node := ShiftFirst();
      }
    }

    method ShiftFirst() returns (node: QueueNode<V>)
      requires Valid() && first != null && first.id in ids && Order() != []
      modifies this, priorities, priorities.Repr, cells
      ensures Valid() && priorities == old(priorities) && fresh(priorities.Repr - old(priorities.Repr)) &&
              cells == old(cells)
      ensures node == old(Order())[0].item && Order() == old(Order())[1..]
      ensures ids == old(ids) - {node.id} && length == old(length) - 1
    {
      hide Agree, Filled, FirstOf, Removed, LongMap.Valid, LongMap.Contents, IsShift, Flat;
      ghost var was := bins;
      var newFirst; ghost var b;
      node, newFirst, b := ShiftFrom(priorities, first, ids, bins, cells);
      ids, first, length, bins := ids - {node.id}, newFirst, length - 1, b;
      ShiftsFront(was, b, node);
    }

    /** Takes the element with the id, if there is one, wherever in the queue it stands. */
    method RemoveNodeWithId(id: string) returns (node: QueueNode?<V>, ghost j: nat)
      requires Valid()
      modifies this, priorities, priorities.Repr, cells
      ensures Valid() && priorities == old(priorities) && priorities.Repr <= old(priorities.Repr) && cells == old(cells)
      ensures ids == old(ids) - {id} && (node == null <==> id !in old(ids))
      ensures if node == null then Order() == old(Order())
              else node.id == id && node in cells && node !in priorities.Repr &&
                   IsWithout(old(Order()), Order(), j, node)
    {
      hide Agree, Filled, FirstOf, Removed, LongMap.Valid, LongMap.Contents, IsTaken, IsWithout, Flat;
      node, j := null, 0;
      if id in ids {
        ghost var was := bins;
        var newFirst; ghost var b, k, i;
        node, newFirst, k, i, b := RemoveFrom(priorities, id, ids[id], first, ids, bins, cells);
        ids, first, length, bins := ids - {id}, newFirst, length - 1, b;
        j := TakesOne(was, b, k, i, node);
      }
    }

    /** An element that is not in the queue may change its priority. */
    method Reprioritize(pn: QueueNode<V>, priority: nat)
      requires Valid() && pn.id !in ids && pn !in priorities.Repr && pn in cells
      modifies pn`priority
      ensures Valid() && pn.priority == priority
    {
      hide Agree, Filled, FirstOf, LongMap.Valid, LongMap.Contents;
      SetPriority(pn, priority, priorities.Contents(), ids, bins, cells);
    }

    /** Moves the element with the id, which must be in the queue, behind those of its new priority. */
    method SetPriorityForId(id: string, priority: nat) returns (ghost pn: QueueNode<V>, ghost j: nat)
      requires Valid() && id in ids
      modifies this, priorities, priorities.Repr, cells
      ensures Valid() && ids.Keys == old(ids).Keys && pn.id == id && pn.priority == priority
      ensures IsMoved(old(Order()), Order(), j, pn, priority)
      ensures priorities == old(priorities) && fresh(priorities.Repr - old(priorities.Repr)) &&
              fresh(cells - old(cells))
    {
      hide Agree, Filled, FirstOf, Removed, Added, LongMap.Valid, LongMap.Contents, IsWithout, IsMoved, Valid, Order,
           Insert;
      ghost var was := Order();
      var node;
      node, j := RemoveNodeWithId(id);
      ghost var less := Order();
      Reprioritize(node, priority);
      PushNode(node);
      MovedIs(was, less, j, node, priority);
      pn := node;
    }
  }

  /** Drains the queue from the front. */
  method Destroy<V>(q: PriorityQueue<V>) returns (values: seq<V>)
    requires q.Valid()
    modifies q, q.priorities, q.priorities.Repr, q.cells
    ensures q.Valid() && q.Order() == [] && values == Values(old(q.Order()))
  {
    hide *;
    values := [];
    ghost var all := q.Order();
    DrainStart(all);
    while q.length > 0
      invariant q.Valid() && q.priorities == old(q.priorities) && q.cells == old(q.cells)
      invariant fresh(q.priorities.Repr - old(q.priorities.Repr)) && Drained(all, q.Order(), values)
      decreases q.length
    {
      values := DrainOne(q, all, values);
    }
    Counted(q);
    DrainedAll(all, values);
  }

  method DrainOne<V>(q: PriorityQueue<V>, ghost all: seq<Ranked<QueueNode<V>>>, values: seq<V>)
    returns (values': seq<V>)
    requires q.Valid() && q.length > 0 && Drained(all, q.Order(), values)
    modifies q, q.priorities, q.priorities.Repr, q.cells
    ensures q.Valid() && q.priorities == old(q.priorities) && q.cells == old(q.cells)
    ensures fresh(q.priorities.Repr - old(q.priorities.Repr)) && q.length == old(q.length) - 1
    ensures Drained(all, q.Order(), values')
  {
    hide *;
    Counted(q);
    ghost var rest := q.Order();
    var node := q.ShiftNode();
    DrainStep(all, rest, values);
    values' := values + [node.value];
  }

  /** The values of the elements from front to back. */
  ghost function Values<V>(s: seq<Ranked<QueueNode<V>>>): (r: seq<V>)
    ensures |r| == |s| && forall i | 0 <= i < |s| :: r[i] == s[i].item.value
  {
    seq(|s|, i requires 0 <= i < |s| => s[i].item.value)
  }

  /** The queue `all` has been drained down to `rest`. */
  ghost predicate Drained<V>(all: seq<Ranked<QueueNode<V>>>, rest: seq<Ranked<QueueNode<V>>>, values: seq<V>) {
    values + Values(rest) == Values(all)
  }

  lemma DrainStart<V>(all: seq<Ranked<QueueNode<V>>>)
    ensures Drained(all, all, [])
  {
    assert [] + Values(all) == Values(all);
  }

  lemma DrainStep<V>(all: seq<Ranked<QueueNode<V>>>, rest: seq<Ranked<QueueNode<V>>>, values: seq<V>)
    requires Drained(all, rest, values) && rest != []
    ensures Drained(all, rest[1..], values + [rest[0].item.value])
  {
    assert Values(rest) == [rest[0].item.value] + Values(rest[1..]);
    Sequences.Associate(values, [rest[0].item.value], Values(rest[1..]));
  }

  lemma DrainedAll<V>(all: seq<Ranked<QueueNode<V>>>, values: seq<V>)
    requires Drained(all, [], values)
    ensures values == Values(all)
  {
    assert values + [] == values;
  }

  lemma Counted<V>(q: PriorityQueue<V>)
    requires q.Valid()
    ensures q.length == 0 <==> q.Order() == []
  {
    FirstIsIndexed(q.priorities.Contents(), q.ids, q.bins, q.cells);
  }

  /** The element `i` of priority `k` is taken from the buckets `b`. */
  ghost predicate IsTaken<V>(b: Bins<V>, b': Bins<V>, k: nat, i: nat, node: QueueNode<V>) {
    Filled(b) && k in b && i < |b[k]| && b' == Removed(b, k, i) && node == b[k][i]
  }

  /** The front element is taken from the buckets `b`. */
  ghost predicate IsShift<V>(b: Bins<V>, b': Bins<V>, node: QueueNode<V>) {
    Filled(b) && node == FirstOf(b) && b.Keys != {} && b' == Removed(b, Least(b.Keys), 0)
  }

  /** The queue without the element `j`. */
  ghost predicate IsWithout<V>(s: seq<Ranked<QueueNode<V>>>, s': seq<Ranked<QueueNode<V>>>, j: nat,
                               node: QueueNode<V>) {
    j < |s| && s[j].item == node && s' == Without(s, j)
  }

  /** The element `j` of the queue goes behind those of priority `priority`. */
  ghost predicate IsMoved<V>(s: seq<Ranked<QueueNode<V>>>, s': seq<Ranked<QueueNode<V>>>, j: nat, node: QueueNode<V>,
                             priority: nat) {
    j < |s| && s[j].item == node && s' == Insert(Without(s, j), Ranked(priority, node))
  }

  lemma MovedIs<V>(s: seq<Ranked<QueueNode<V>>>, less: seq<Ranked<QueueNode<V>>>, j: nat, node: QueueNode<V>,
                   priority: nat)
    requires IsWithout(s, less, j, node)
    ensures IsMoved(s, Insert(less, Ranked(priority, node)), j, node, priority)
  {
  }

  /** The front element of the buckets is the front of the list. */
  lemma ShiftsFront<V>(b: Bins<V>, b': Bins<V>, node: QueueNode<V>)
    requires IsShift(b, b', node)
    ensures Flat(b) != [] && Flat(b)[0].item == node && Flat(b') == Flat(b)[1..]
  {
    var m := Least(b.Keys);
    var j := FlatRemoved(b, m, 0);
    assert Without(Flat(b), 0) == Flat(b)[1..];
  }

  lemma TakesOne<V>(b: Bins<V>, b': Bins<V>, k: nat, i: nat, node: QueueNode<V>) returns (j: nat)
    requires IsTaken(b, b', k, i, node)
    ensures IsWithout(Flat(b), Flat(b'), j, node)
  {
    j := FlatRemoved(b, k, i);
  }

  lemma Outsider<V>(lists: Lists<V>, ids: map<string, Place<V>>, b: Bins<V>, cells: set<object>, pn: QueueNode<V>)
    requires Agree(lists, ids, b, cells) && pn.id !in ids
    ensures (forall k | k in b :: pn !in b[k]) && (forall id | id in ids :: ids[id].node.value != pn)
  {
    forall k | k in b ensures pn !in b[k] {
      assert Keeps(lists[k], k, b[k], ids);
    }
    forall id | id in ids ensures ids[id].node.value != pn {
      assert Located(id, ids[id], lists);
    }
  }

  lemma FirstIsIndexed<V>(lists: Lists<V>, ids: map<string, Place<V>>, b: Bins<V>, cells: set<object>)
    requires Agree(lists, ids, b, cells)
    ensures Filled(b) && (FirstOf(b) == null <==> Flat(b) == []) && (|ids| == 0 <==> Flat(b) == [])
    ensures FirstOf(b) != null ==> FirstOf(b).id in ids
  {
    AgreeIsFilled(lists, ids, b, cells);
    assert |ids| == 0 <==> ids.Keys == {};
    if b.Keys != {} {
      var m := Least(b.Keys);
      assert Keeps(lists[m], m, b[m], ids);
    }
  }

  // ---------- the three structures agree ----------

  ghost function IdsIn<V>(s: seq<Ranked<QueueNode<V>>>): (r: seq<string>)
    ensures |r| == |s| && forall i | 0 <= i < |s| :: r[i] == s[i].item.id
  {
    seq(|s|, i requires 0 <= i < |s| => s[i].item.id)
  }

  /** No id occurs twice, neither in one bucket nor in two. */
  ghost predicate DistinctBins<V>(b: Bins<V>) {
    (forall k | k in b :: forall i, j | 0 <= i < j < |b[k]| :: b[k][i].id != b[k][j].id) &&
    forall j, k | j in b && k in b && j != k :: forall x, y | x in b[j] && y in b[k] :: x.id != y.id
  }

  lemma {:induction false} FlatItems<V>(b: Bins<V>, r: Ranked<QueueNode<V>>)
    ensures r in Flat(b) <==> r.priority in b && r.item in b[r.priority]
    decreases |b.Keys|
  {
    if b.Keys != {} {
      var k := Least(b.Keys);
      FlatItems(b - {k}, r);
      TaggedItems(k, b[k], r);
      assert Flat(b) == Tagged(k, b[k]) + Flat(b - {k});
    }
  }

  lemma TaggedItems<T>(k: nat, s: seq<T>, r: Ranked<T>)
    ensures r in Tagged(k, s) <==> r.priority == k && r.item in s
  {
    if r.priority == k && r.item in s {
      var i :| 0 <= i < |s| && s[i] == r.item;
      assert Tagged(k, s)[i] == r;
    }
  }

  lemma {:induction false} FlatDistinct<V>(b: Bins<V>)
    requires DistinctBins(b)
    ensures LinkedLists.Distinct(IdsIn(Flat(b)))
    decreases |b.Keys|
  {
    if b.Keys == {} {
      assert Flat(b) == [];
    } else {
      hide Flat;
      var k := Least(b.Keys);
      var s, rest := Tagged(k, b[k]), Flat(b - {k});
      FlatDistinct(b - {k});
      FlatStep(b, k);
      forall i, j | 0 <= i < |s| && 0 <= j < |rest| ensures s[i].item.id != rest[j].item.id {
        assert rest[j] in rest;
        FlatItems(b - {k}, rest[j]);
      }
      forall i, j | 0 <= i < j < |rest| ensures rest[i].item.id != rest[j].item.id {
        assert IdsIn(rest)[i] != IdsIn(rest)[j];
      }
      DistinctJoined(s, rest);
    }
  }

  lemma DistinctJoined<V>(s: seq<Ranked<QueueNode<V>>>, t: seq<Ranked<QueueNode<V>>>)
    requires forall i, j | 0 <= i < j < |s| :: s[i].item.id != s[j].item.id
    requires forall i, j | 0 <= i < j < |t| :: t[i].item.id != t[j].item.id
    requires forall i, j | 0 <= i < |s| && 0 <= j < |t| :: s[i].item.id != t[j].item.id
    ensures LinkedLists.Distinct(IdsIn(s + t))
  {
    var u := s + t;
    forall i, j | 0 <= i < j < |u| ensures IdsIn(u)[i] != IdsIn(u)[j] {
      assert u[i] == (if i < |s| then s[i] else t[i - |s|]) && u[j] == (if j < |s| then s[j] else t[j - |s|]);
    }
  }

  /** The index tells all elements apart. */
  lemma BinsAreDistinct<V>(lists: Lists<V>, ids: map<string, Place<V>>, b: Bins<V>, cells: set<object>)
    requires Agree(lists, ids, b, cells)
    ensures DistinctBins(b)
  {
    hide Inside, Reaches, Located;
    forall k | k in b
      ensures forall i, j | 0 <= i < j < |b[k]| :: b[k][i].id != b[k][j].id
    {
      assert Keeps(lists[k], k, b[k], ids);
    }
    forall j, k | j in b && k in b && j != k
      ensures forall x, y | x in b[j] && y in b[k] :: x.id != y.id
    {
      assert Keeps(lists[j], j, b[j], ids) && Keeps(lists[k], k, b[k], ids);
      forall x, y | x in b[j] && y in b[k] ensures x.id != y.id {
        var h :| 0 <= h < |b[j]| && b[j][h] == x;
        var i :| 0 <= i < |b[k]| && b[k][i] == y;
      }
    }
  }

  /** The index has exactly the ids of the elements. */
  lemma IndexIsExact<V>(lists: Lists<V>, ids: map<string, Place<V>>, b: Bins<V>, cells: set<object>, id: string)
    requires Agree(lists, ids, b, cells)
    ensures id in ids <==> id in IdsIn(Flat(b))
    ensures id in ids ==>
              ids[id].node.value.id == id && Ranked(ids[id].node.value.priority, ids[id].node.value) in Flat(b)
  {
    var s := Flat(b);
    if id in IdsIn(s) {
      var i :| 0 <= i < |s| && s[i].item.id == id;
      assert s[i] in s;
      FlatItems(b, s[i]);
      assert Keeps(lists[s[i].priority], s[i].priority, b[s[i].priority], ids);
    }
    if id in ids {
      var i := Find(id, lists, ids, b, cells);
      var node := ids[id].node.value;
      FlatItems(b, Ranked(node.priority, node));
      var h :| 0 <= h < |s| && s[h] == Ranked(node.priority, node);
      assert IdsIn(s)[h] == id;
    }
  }

  lemma {:induction false} DistinctCount(s: seq<string>, t: set<string>)
    requires LinkedLists.Distinct(s) && forall x :: x in s <==> x in t
    ensures |s| == |t|
  {
    if s == [] {
      assert t == {};
    } else {
      var n := |s| - 1;
      assert s == s[..n] + [s[n]];
      DistinctCount(s[..n], t - {s[n]});
    }
  }

  /** At any time: the queue is ordered by priority, `first` is its front, its elements have distinct
      ids, and the index leads from exactly these ids to the elements. */
  lemma QueueAgrees<V>(q: PriorityQueue<V>)
    requires q.Valid()
    ensures Ordered(q.Order()) && q.first == (if q.Order() == [] then null else q.Order()[0].item)
    ensures LinkedLists.Distinct(IdsIn(q.Order())) && q.length == |q.Order()|
    ensures forall id :: id in q.ids <==> id in IdsIn(q.Order())
    ensures forall id | id in q.ids ::
              var node := q.ids[id].node.value; node.id == id && Ranked(node.priority, node) in q.Order()
  {
    hide Agree, Located, Reaches, Keeps, Inside, Flat, LongMap.Valid, LongMap.Contents, DistinctBins, Ordered, FirstOf;
    var lists := q.priorities.Contents();
    FlatIsOrdered(q.bins, 0);
    BinsAreDistinct(lists, q.ids, q.bins, q.cells);
    FlatDistinct(q.bins);
    forall id
      ensures id in q.ids <==> id in IdsIn(q.Order())
      ensures id in q.ids ==>
                q.ids[id].node.value.id == id &&
                Ranked(q.ids[id].node.value.priority, q.ids[id].node.value) in q.Order()
    {
      IndexIsExact(lists, q.ids, q.bins, q.cells, id);
    }
    DistinctCount(IdsIn(q.Order()), q.ids.Keys);
    FirstIsIndexed(lists, q.ids, q.bins, q.cells);
    FirstIsFront(q.bins);
  }

  lemma FirstIsFront<V>(b: Bins<V>)
    requires Filled(b)
    ensures FirstOf(b) == if Flat(b) == [] then null else Flat(b)[0].item
  {
  }

  // ---------- the queue as a value ----------

  /** An element of the queue, apart from its node. */
  datatype Entry<V> = Entry(id: string, value: V)

  /** The entries of the elements, from front to back. */
  ghost function Entries<V>(s: seq<Ranked<QueueNode<V>>>): (r: seq<Ranked<Entry<V>>>)
    ensures |r| == |s|
    ensures forall i | 0 <= i < |s| :: r[i] == Ranked(s[i].priority, Entry(s[i].item.id, s[i].item.value))
  {
    seq(|s|, i requires 0 <= i < |s| => Ranked(s[i].priority, Entry(s[i].item.id, s[i].item.value)))
  }

  lemma {:induction false} EntriesInsert<V>(s: seq<Ranked<QueueNode<V>>>, x: Ranked<QueueNode<V>>)
    ensures Entries(Insert(s, x)) == Insert(Entries(s), Ranked(x.priority, Entry(x.item.id, x.item.value)))
  {
    var y := Ranked(x.priority, Entry(x.item.id, x.item.value));
    if s == [] || s[0].priority > x.priority {
      assert Entries([x] + s) == [y] + Entries(s);
    } else {
      EntriesInsert(s[1..], x);
      assert Entries(s)[1..] == Entries(s[1..]);
      assert Entries([s[0]] + Insert(s[1..], x)) == [Entries(s)[0]] + Entries(Insert(s[1..], x));
    }
  }

  // ---------- sorting with the queue ----------

  datatype Item<V> = Item(priority: nat, id: string, value: V)

  ghost function RankedItems<V>(items: seq<Item<V>>): (r: seq<Ranked<Entry<V>>>)
    ensures |r| == |items|
    ensures forall i | 0 <= i < |r| :: r[i] == Ranked(items[i].priority, Entry(items[i].id, items[i].value))
  {
    seq(|items|, i requires 0 <= i < |items| => Ranked(items[i].priority, Entry(items[i].id, items[i].value)))
  }

  /** The values of a list of ranked entries. */
  ghost function EntryValues<V>(s: seq<Ranked<Entry<V>>>): (r: seq<V>)
    ensures |r| == |s| && forall i | 0 <= i < |s| :: r[i] == s[i].item.value
  {
    seq(|s|, i requires 0 <= i < |s| => s[i].item.value)
  }

  /** `r` is `s` ordered by priority, items of one priority keeping their order. */
  ghost predicate StablySorted<T>(s: seq<Ranked<T>>, r: seq<Ranked<T>>) {
    Ordered(r) && multiset(r) == multiset(s) && forall k: nat :: OfPriority(r, k) == OfPriority(s, k)
  }

  /** Pushing a list into a new queue and destroying the queue sorts the list stably. */
  method SortByPriority<V>(items: seq<Item<V>>) returns (values: seq<V>)
    requires DistinctIds(items)
    ensures var sorted := InsertAll(RankedItems(items));
            values == EntryValues(sorted) && StablySorted(RankedItems(items), sorted)
  {
    hide *;
    var q := PushAll(items);
    PushedIsSorted(items, q.Order());
    values := Destroy(q);
  }

  lemma PushedIsSorted<V>(items: seq<Item<V>>, order: seq<Ranked<QueueNode<V>>>)
    requires Entries(order) == InsertAll(RankedItems(items))
    ensures Values(order) == EntryValues(InsertAll(RankedItems(items)))
    ensures StablySorted(RankedItems(items), InsertAll(RankedItems(items)))
  {
    forall k: nat ensures OfPriority(Entries(order), k) == OfPriority(RankedItems(items), k) {
      StableSort(RankedItems(items), k);
    }
    StableSort(RankedItems(items), 0);
    assert Values(order) == EntryValues(Entries(order));
  }

  /** The first `n` items have been pushed. */
  ghost predicate Pushed<V>(items: seq<Item<V>>, n: nat, order: seq<Ranked<QueueNode<V>>>) {
    n <= |items| && Entries(order) == InsertAll(RankedItems(items[..n]))
  }

  lemma NothingPushed<V>(items: seq<Item<V>>)
    ensures Pushed(items, 0, [])
  {
  }

  lemma OnePushed<V>(items: seq<Item<V>>, n: nat, order: seq<Ranked<QueueNode<V>>>, pn: QueueNode<V>)
    requires Pushed(items, n, order) && n < |items| && pn.id == items[n].id && pn.value == items[n].value
    ensures Pushed(items, n + 1, Insert(order, Ranked(items[n].priority, pn)))
  {
    EntriesInsert(order, Ranked(items[n].priority, pn));
    var s, t := RankedItems(items[..n]), RankedItems(items[..n + 1]);
    assert t[..|t| - 1] == s;
  }

  lemma AllPushed<V>(items: seq<Item<V>>, order: seq<Ranked<QueueNode<V>>>)
    requires Pushed(items, |items|, order)
    ensures Entries(order) == InsertAll(RankedItems(items))
  {
    assert items[..|items|] == items;
  }

  ghost predicate DistinctIds<V>(items: seq<Item<V>>) {
    forall i, j | 0 <= i < j < |items| :: items[i].id != items[j].id
  }

  /** These are ids of the first `n` items. */
  ghost predicate KnownIds<V>(items: seq<Item<V>>, n: nat, known: set<string>) {
    n <= |items| && forall id | id in known :: exists j | 0 <= j < n :: items[j].id == id
  }

  lemma NextId<V>(items: seq<Item<V>>, n: nat, known: set<string>)
    requires KnownIds(items, n, known) && DistinctIds(items) && n < |items|
    ensures items[n].id !in known && KnownIds(items, n + 1, known + {items[n].id})
  {
    forall id | id in known + {items[n].id} ensures exists j | 0 <= j < n + 1 :: items[j].id == id {
      if id in known {
        var j :| 0 <= j < n && items[j].id == id;
      } else {
        assert items[n].id == id;
      }
    }
  }

  method PushAll<V>(items: seq<Item<V>>) returns (q: PriorityQueue<V>)
    requires DistinctIds(items)
    ensures fresh(q) && fresh(q.priorities) && fresh(q.priorities.Repr) && fresh(q.cells)
    ensures q.Valid() && Entries(q.Order()) == InsertAll(RankedItems(items))
  {
    hide *;
    q := new PriorityQueue<V>();
    var i := 0;
    NothingPushed(items);
    NoIds(items, q.ids.Keys);
    while i < |items|
      invariant 0 <= i <= |items| && q.Valid() && fresh(q) && fresh(q.priorities) && fresh(q.priorities.Repr) &&
                fresh(q.cells)
      invariant Pushed(items, i, q.Order()) && KnownIds(items, i, q.ids.Keys)
    {
      ghost var before, known := q.Order(), q.ids;
      NextId(items, i, known.Keys);
      ghost var pn := q.Push(items[i].priority, items[i].id, items[i].value);
      OnePushed(items, i, before, pn);
      IdsOf(known, q.ids, items[i].id);
      i := i + 1;
    }
    AllPushed(items, q.Order());
  }

  lemma NoIds<V>(items: seq<Item<V>>, known: set<string>)
    requires known == {}
    ensures KnownIds(items, 0, known)
  {
  }
}

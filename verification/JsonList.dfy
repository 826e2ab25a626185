/**
 The linked lists of core/gason.cpp on the heap. While a container is open its list is circular and
 `tails[pos]` points to the newest node; `Append` is `insertAfter`, `Close` is `listToValue`, and
 `Walk` is a loop with `JsonIterator`.
 */
module JsonList {

  /** `JsonNode`. The ghost fields name the list that a node belongs to, and its place in it. */
  class ListNode<V> {
    var value: V
    var next: ListNode?<V>
    ghost const home: nat
    ghost const rank: nat
    // The block of memory that the node lives in.
    ghost const block: nat

    constructor (v: V, ghost home: nat, ghost rank: nat, ghost block: nat)
      ensures value == v && this.home == home && this.rank == rank && this.block == block
    {
      value := v;
      next := null;
      this.home, this.rank, this.block := home, rank, block;
    }
  }

  /** A node and what it holds. */
  datatype Cell<V> = Cell(node: ListNode<V>, value: V)

  /** The link of node `i`: a circular list comes back to its first node, a closed one ends. */
  ghost function Link<V>(nodes: seq<ListNode<V>>, i: nat, circular: bool): ListNode?<V>
    requires i < |nodes|
  {
    if i + 1 < |nodes| then nodes[i + 1] else if circular then nodes[0] else null
  }

  ghost function Newest<V>(nodes: seq<ListNode<V>>): ListNode?<V> {
    if nodes == [] then null else nodes[|nodes| - 1]
  }

  ghost function CellsOf<V>(nodes: seq<ListNode<V>>): (cells: seq<Cell<V>>)
    reads nodes
    ensures |cells| == |nodes|
  {
    seq(|nodes|, i requires 0 <= i < |nodes| reads nodes => Cell(nodes[i], nodes[i].value))
  }

  method InsertAfter<V>(tail: ListNode?<V>, node: ListNode<V>) returns (r: ListNode<V>)
    requires tail != node
    modifies tail, node
    ensures r == node && node.value == old(node.value)
    ensures tail != null ==> tail.value == old(tail.value)
    ensures if tail == null then node.next == node else node.next == old(tail.next) && tail.next == node
  {
    if tail == null {
      node.next := node;
      return node;
    }
    node.next := tail.next;
    tail.next := node;
    return node;
  }

  class Lists<V> {
    const tails: array<ListNode?<V>>
    var pos: int
    ghost var lists: map<nat, seq<ListNode<V>>>
    ghost var open: seq<nat>
    ghost var limit: nat

    ghost function Nodes(): set<ListNode<V>>
      reads this
    {
      set id, i | id in lists && 0 <= i < |lists[id]| :: lists[id][i]
    }

    /** Lists are numbered as they open. */
    ghost predicate Shape()
      reads this
    {
      && tails.Length == 32 && -1 <= pos < 32 && |open| == pos + 1
      && (forall id | id in lists :: id < limit)
      && (forall l | 0 <= l < |open| :: open[l] in lists)
      && (forall k, l | 0 <= k < l < |open| :: open[k] < open[l])
    }

    /** A node belongs to one list only, and its link is the one of its list. */
    ghost predicate Linked()
      reads this, Nodes()
    {
      forall id, i | id in lists && 0 <= i < |lists[id]| ::
        && lists[id][i].home == id && lists[id][i].rank == i
        && lists[id][i].next == Link(lists[id], i, id in open)
    }

    /** Each tail pointer is on the newest node of its list. */
    ghost predicate Tailed()
      reads this, tails
      requires Shape()
    {
      forall l | 0 <= l < |open| :: tails[l] == Newest(lists[open[l]])
    }

    ghost predicate Valid()
      reads this, tails, Nodes()
    {
      Shape() && Linked() && Tailed()
    }

    /** All lists: their nodes in order, and what these hold. */
    ghost function Cells(): (cells: map<nat, seq<Cell<V>>>)
      reads this, Nodes()
      ensures cells.Keys == lists.Keys
    {
      map id | id in lists :: CellsOf(lists[id])
    }

    constructor ()
      ensures Valid() && fresh(tails) && Cells() == map[] && open == [] && Nodes() == {}
    {
      tails := new ListNode?<V>[32](_ => null);
      pos := -1;
      lists, open, limit := map[], [], 0;
    }

    /** A container opens: an empty list. */
    method Open() returns (ghost id: nat)
      requires Valid() && pos < 31
      modifies this, tails
      ensures Valid() && id == old(limit) && limit == id + 1 && Nodes() == old(Nodes())
      ensures open == old(open) + [id] && Cells() == old(Cells())[id := []]
    {
      id := limit;
      limit := limit + 1;
      pos := pos + 1;
      tails[pos] := null;
      lists, open := lists[id := []], open + [id];
      OpenedNodes(id);
      hide Linked;
      OpenedIsLinked(id);
    }

    twostate lemma OpenedNodes(id: nat)
      requires id !in old(lists) && lists == old(lists)[id := []]
      requires forall n | n in old(Nodes()) :: n.value == old(n.value)
      ensures Nodes() == old(Nodes()) && Cells() == old(Cells())[id := []]
    {
      forall n | n in old(Nodes())
        ensures n in Nodes()
      {
        var other, i :| other in old(lists) && 0 <= i < |old(lists)[other]| && n == old(lists)[other][i];
        assert n == lists[other][i];
      }
      forall other | other in lists
        ensures Cells()[other] == if other == id then [] else old(Cells())[other]
      {
        if other != id {
          assert forall i | 0 <= i < |lists[other]| :: lists[other][i] in old(Nodes());
        }
      }
    }

    twostate lemma OpenedIsLinked(id: nat)
      requires old(Linked()) && id !in old(lists) && lists == old(lists)[id := []] && open == old(open) + [id]
      requires forall n | n in old(Nodes()) :: n.next == old(n.next)
      ensures Linked()
    {
      forall other, i | other in lists && 0 <= i < |lists[other]|
        ensures lists[other][i].home == other && lists[other][i].rank == i
        ensures lists[other][i].next == Link(lists[other], i, other in open)
      {
        assert other in old(lists) && lists[other][i] in old(Nodes());
        assert other in open <==> other in old(open);
      }
    }

    /** `insertAfter` on the innermost list: one more value there, every other list as it was. */
    method Append(v: V, ghost block: nat) returns (node: ListNode<V>)
      requires Valid() && 0 <= pos
      modifies this, tails, Nodes()
      ensures Valid() && open == old(open) && limit == old(limit)
      ensures fresh(node) && Nodes() == old(Nodes()) + {node} && node.block == block
      ensures
        var cells, id := old(Cells()), old(open[pos]);
        Cells() == cells[id := cells[id] + [Cell(node, v)]]
    {
      node := new ListNode(v, open[pos], |lists[open[pos]]|, block);
      Attach(node);
      hide Valid;
      AttachedNodes(node);
      AttachedCells(node);
    }

    method Attach(node: ListNode<V>)
      requires Valid() && 0 <= pos && node !in Nodes()
      requires node.home == open[pos] && node.rank == |lists[open[pos]]|
      modifies this, tails, Nodes(), node
      ensures Valid() && open == old(open) && pos == old(pos) && limit == old(limit)
      ensures lists == old(lists)[open[pos] := old(lists[open[pos]]) + [node]]
      ensures node.value == old(node.value) && forall n | n in old(Nodes()) :: n.value == old(n.value)
    {
      ghost var id := open[pos];
      hide Linked;
      NewestIsUnique(pos);
      var tail := InsertAfter(tails[pos], node);
      lists := lists[id := lists[id] + [node]];
      tails[pos] := tail;
      AttachedIsLinked(node);
    }

    /** No list is lost, and one has one more node. */
    twostate predicate Attached(new node: ListNode<V>)
      reads this
    {
      && 0 <= old(pos) < |old(open)| && old(open[pos]) in old(lists) && node !in old(Nodes())
      && lists == old(lists)[old(open[pos]) := old(lists[open[pos]]) + [node]]
    }

    twostate lemma AttachedNodes(new node: ListNode<V>)
      requires Attached(node)
      ensures Nodes() == old(Nodes()) + {node}
    {
      var id := old(open[pos]);
      forall n | n in old(Nodes())
        ensures n in Nodes()
      {
        var other, i :| other in old(lists) && 0 <= i < |old(lists)[other]| && n == old(lists)[other][i];
        assert n == lists[other][i];
      }
      assert node == lists[id][|old(lists)[id]|];
    }

    twostate lemma AttachedCells(new node: ListNode<V>)
      requires Attached(node) && forall n | n in old(Nodes()) :: n.value == old(n.value)
      ensures
        var cells, id := old(Cells()), old(open[pos]);
        Cells() == cells[id := cells[id] + [Cell(node, node.value)]]
    {
      var cells, id := old(Cells()), old(open[pos]);
      forall other | other in lists
        ensures Cells()[other] == if other == id then cells[id] + [Cell(node, node.value)] else cells[other]
      {
        assert forall i | 0 <= i < |old(lists)[other]| :: old(lists)[other][i] in old(Nodes());
      }
    }

    lemma NewestIsUnique(l: nat)
      requires Valid() && l < |open|
      ensures
        var nodes := lists[open[l]];
        nodes != [] ==>
          && tails[l] in Nodes() && tails[l].next == nodes[0]
          && forall n | n in Nodes() :: n == tails[l] <==> n.home == open[l] && n.rank + 1 == |nodes|
    {
      var nodes := lists[open[l]];
      if nodes != [] {
        forall n | n in Nodes() && n.home == open[l] && n.rank + 1 == |nodes|
          ensures n == tails[l]
        {
          var id, i :| id in lists && 0 <= i < |lists[id]| && n == lists[id][i];
        }
      }
    }

    twostate lemma AttachedIsLinked(new node: ListNode<V>)
      requires old(Valid()) && Attached(node) && pos == old(pos) && open == old(open)
      requires node.home == open[pos] && node.rank == |old(lists[open[pos]])|
      requires
        var id, nodes := open[pos], old(lists[open[pos]]);
        && node.next == (if nodes == [] then node else nodes[0])
        && (forall n | n in old(Nodes()) ::
              n.next == if n.home == id && n.rank + 1 == |nodes| then node else old(n.next))
      ensures Linked()
    {
      forall id, i | id in lists && 0 <= i < |lists[id]|
        ensures lists[id][i].home == id && lists[id][i].rank == i
        ensures lists[id][i].next == Link(lists[id], i, id in open)
      {
        if id != open[pos] || i < |old(lists[open[pos]])| {
          assert lists[id][i] == old(lists[id][i]) && lists[id][i] in old(Nodes());
        }
      }
    }

    /** `listToValue` on the innermost list: its last link is cut, and its first node is the value. */
    method Close() returns (head: ListNode?<V>, ghost id: nat)
      requires Valid() && 0 <= pos
      modifies this, Nodes()
      ensures Valid() && id == old(open[pos]) && open == old(open)[..old(pos)] && id !in open
      ensures limit == old(limit) && Nodes() == old(Nodes()) && Cells() == old(Cells())
      ensures head == if Cells()[id] == [] then null else Cells()[id][0].node
    {
      id := open[pos];
      var tail := tails[pos];
      NewestIsUnique(pos);
      hide Linked;
      if tail == null {
        head := null;
      } else {
        head := tail.next;
        tail.next := null;
      }
      open := open[..pos];
      pos := pos - 1;
      ClosedIsLinked();
    }

    twostate lemma ClosedIsLinked()
      requires old(Valid()) && 0 <= old(pos) && lists == old(lists) && open == old(open)[..old(pos)]
      requires
        var id, nodes := old(open[pos]), old(lists[open[pos]]);
        forall n | n in old(Nodes()) :: n.next == if n.home == id && n.rank + 1 == |nodes| then null else old(n.next)
      requires forall n | n in old(Nodes()) :: n.value == old(n.value)
      ensures Linked() && Cells() == old(Cells()) && Nodes() == old(Nodes())
    {
      forall id, i | id in lists && 0 <= i < |lists[id]|
        ensures lists[id][i].home == id && lists[id][i].rank == i
        ensures lists[id][i].next == Link(lists[id], i, id in open)
      {
        assert lists[id][i] in old(Nodes());
        assert id in open <==> id in old(open) && id != old(open[pos]);
      }
      forall id | id in lists
        ensures Cells()[id] == old(Cells())[id]
      {
        assert forall i | 0 <= i < |lists[id]| :: lists[id][i] in old(Nodes());
      }
    }

    /** A walk with `JsonIterator` over a closed list ends, and visits its values in order. */
    method Walk(head: ListNode?<V>, ghost id: nat) returns (vs: seq<V>)
      requires Valid() && id in lists && id !in open
      requires head == if lists[id] == [] then null else lists[id][0]
      ensures |vs| == |Cells()[id]| && forall i | 0 <= i < |vs| :: vs[i] == Cells()[id][i].value
    {
      ghost var nodes := lists[id];
      vs := [];
      var p := head;
      while p != null
        invariant |vs| <= |nodes| && p == if |vs| < |nodes| then nodes[|vs|] else null
        invariant forall i | 0 <= i < |vs| :: vs[i] == Cells()[id][i].value
        decreases |nodes| - |vs|
      {
        vs := vs + [p.value];
        p := p.next;
      }
    }
  }
}

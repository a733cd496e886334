/**
 * The particle pool as the source keeps it: a singly linked list of
 * `struct ListItem` nodes, each holding one particle and the next node.
 *
 * A list is named by its head pointer (`null` for the empty list). Its shape
 * is described by a ghost sequence of the nodes reached from the head, in
 * order: `IsList(head, nodes)`. The particle a node holds is kept as a value
 * in the node: every node owns its own particle, so updating "the particle a
 * node points to" and updating the node's particle field are the same.
 */
module ParticleList {
  import opened Particles

  /** `struct ListItem`. */
  class ListItem {
    var particle: Particle
    var next: ListItem?

    /** A detached node holding `p`. */
    constructor (p: Particle)
      ensures particle == p && next == null
    {
      particle := p;
      next := null;
    }
  }

  /**
   * A variable holding a head pointer, for the `struct ListItem **` parameters
   * of `push_item` and `remove_item`: they may replace the head the variable holds.
   */
  class ListRef {
    var head: ListItem?

    constructor (head: ListItem?)
      ensures this.head == head
    {
      this.head := head;
    }
  }

  /**
   * `nodes` are exactly the nodes reached from `head`, in order: distinct, each
   * linked to the one after it, the last one to `null`.
   */
  ghost predicate IsList(head: ListItem?, nodes: seq<ListItem>)
    reads nodes`next
  {
    && (if nodes == [] then head == null else head == nodes[0])
    && (forall i, j :: 0 <= i < j < |nodes| ==> Apart(nodes, i, j))
    && (forall i :: 0 <= i < |nodes| - 1 ==> Linked(nodes, i))
    && (nodes != [] ==> nodes[|nodes| - 1].next == null)
  }

  /**
   * Nodes `i` and `j` are different nodes. Kept, like `Linked`, as a
   * predicate of its own so that a proof states which pairs it uses.
   */
  ghost predicate Apart(nodes: seq<ListItem>, i: int, j: int)
    requires 0 <= i < j < |nodes|
  {
    nodes[i] != nodes[j]
  }

  /**
   * Node `i` links to node `i + 1`. Kept as a predicate of its own so that a
   * proof states which links it uses.
   */
  ghost predicate Linked(nodes: seq<ListItem>, i: int)
    requires 0 <= i < |nodes| - 1
    reads nodes`next
  {
    nodes[i].next == nodes[i + 1]
  }

  /** No node is in both sequences. */
  ghost predicate Disjoint(a: seq<ListItem>, b: seq<ListItem>)
  {
    forall i, j :: 0 <= i < |a| && 0 <= j < |b| ==> a[i] != b[j]
  }

  /** The nodes hold the particles `ps`, one each and in order. */
  ghost predicate Carries(nodes: seq<ListItem>, ps: seq<Particle>)
    reads nodes`particle
  {
    |nodes| == |ps| && forall i :: 0 <= i < |nodes| ==> nodes[i].particle == ps[i]
  }

  /** `head` heads a list of the nodes `nodes`, which hold the particles `ps`. */
  ghost predicate Holds(head: ListItem?, nodes: seq<ListItem>, ps: seq<Particle>)
    reads nodes`next, nodes`particle
  {
    IsList(head, nodes) && Carries(nodes, ps)
  }

  /** Two runs of nodes, one after the other, hold their particles one after the other. */
  lemma CarriesAppend(a: seq<ListItem>, b: seq<ListItem>, pa: seq<Particle>, pb: seq<Particle>)
    requires Carries(a, pa) && Carries(b, pb)
    ensures Carries(a + b, pa + pb)
  {
    assert forall i :: 0 <= i < |a + b| ==> (a + b)[i] == if i < |a| then a[i] else b[i - |a|];
  }

  /** The nodes from index `d` on hold the particles from index `d` on. */
  lemma CarriesSuffix(nodes: seq<ListItem>, ps: seq<Particle>, d: nat)
    requires Carries(nodes, ps) && d <= |nodes|
    ensures Carries(nodes[d..], ps[d..])
  {
  }

  /** The nodes after the head of a list form a list themselves. */
  lemma TailIsList(head: ListItem?, nodes: seq<ListItem>)
    requires IsList(head, nodes) && nodes != []
    ensures IsList(nodes[0].next, nodes[1..])
  {
    forall i | 0 <= i < |nodes| - 2
      ensures Linked(nodes[1..], i)
    {
      assert Linked(nodes, i + 1);
    }
    forall i, j | 0 <= i < j < |nodes| - 1
      ensures Apart(nodes[1..], i, j)
    {
      assert Apart(nodes, i + 1, j + 1);
    }
    if |nodes| > 1 {
      assert Linked(nodes, 0);
    }
  }

  /** Every node but the last links to the node after it. */
  lemma Successor(head: ListItem?, nodes: seq<ListItem>, i: int)
    requires IsList(head, nodes) && 0 <= i < |nodes| - 1
    ensures nodes[i].next == nodes[i + 1] && nodes[i].next != null
  {
    assert Linked(nodes, i);
  }

  /** A node occurs in a list only once. */
  lemma Unique(head: ListItem?, nodes: seq<ListItem>, i: int)
    requires IsList(head, nodes) && 0 <= i < |nodes|
    ensures forall j :: 0 <= j < |nodes| && j != i ==> nodes[j] != nodes[i]
  {
    forall j | 0 <= j < |nodes| && j != i
      ensures nodes[j] != nodes[i]
    {
      if j < i {
        assert Apart(nodes, j, i);
      } else {
        assert Apart(nodes, i, j);
      }
    }
  }

  /** The only node of a list whose `next` is `null` is the last one. */
  lemma LastNodeEndsList(head: ListItem?, nodes: seq<ListItem>, i: int)
    requires IsList(head, nodes) && 0 <= i < |nodes| && nodes[i].next == null
    ensures i == |nodes| - 1
  {
    if i < |nodes| - 1 {
      Successor(head, nodes, i);
    }
  }

  /**
   * Linking the last node of a list to the head of a second, disjoint list
   * makes one list of the two.
   */
  lemma JoinAfterLast(nodes: seq<ListItem>, tail: seq<ListItem>)
    requires nodes != [] && Disjoint(nodes, tail)
    requires forall i, j :: 0 <= i < j < |nodes| ==> Apart(nodes, i, j)
    requires forall k :: 0 <= k < |nodes| - 1 ==> Linked(nodes, k)
    requires IsList(nodes[|nodes| - 1].next, tail)
    ensures IsList(nodes[0], nodes + tail)
  {
    var joined := nodes + tail;
    forall k | 0 <= k < |joined| - 1
      ensures Linked(joined, k)
    {
      if k < |nodes| - 1 {
        assert Linked(nodes, k) && joined[k] == nodes[k] && joined[k + 1] == nodes[k + 1];
      } else if k >= |nodes| {
        assert Linked(tail, k - |nodes|);
        assert joined[k] == tail[k - |nodes|] && joined[k + 1] == tail[k + 1 - |nodes|];
      }
    }
    forall i, j | 0 <= i < j < |joined|
      ensures Apart(joined, i, j)
    {
      if j < |nodes| {
        assert Apart(nodes, i, j);
      } else if i >= |nodes| {
        assert Apart(tail, i - |nodes|, j - |nodes|);
      } else {
        assert joined[i] == nodes[i] && joined[j] == tail[j - |nodes|];
      }
    }
  }

  /**
   * `pop_front`: the node after the head, or `null` for an empty or
   * one-element list. It changes no node (the dropped head is neither freed
   * nor unlinked).
   */
  function PopFront(head: ListItem?): (r: ListItem?)
    reads head
    ensures head == null ==> r == null
    ensures head != null ==> r == head.next
  {
    if head != null && head.next != null then head.next else null
  }

  /** `pop_front` returns the tail of the list. */
  lemma PopFrontIsTail(head: ListItem?, nodes: seq<ListItem>)
    requires IsList(head, nodes)
    ensures IsList(PopFront(head), if nodes == [] then [] else nodes[1..])
    ensures |nodes| <= 1 <==> PopFront(head) == null
  {
    if nodes != [] {
      TailIsList(head, nodes);
    }
  }

  /**
   * `create_item`: a fresh detached node holding a new particle of lifespan
   * `maxAge`. `attributes` stands for the random floating-point attributes
   * `create_particle` draws.
   */
  method CreateItem(maxAge: int, attributes: Attributes) returns (item: ListItem)
    ensures fresh(item) && item.next == null
    ensures item.particle == NewParticle(maxAge, attributes)
  {
    item := new ListItem(NewParticle(maxAge, attributes));
  }

  /**
   * `push_item`: with a `null` handle nothing happens. Otherwise the list
   * headed by `item` (`tail`, normally one fresh node) is linked after the last
   * node of the list, or becomes the list when it was empty. Only the old last
   * node's `next` and, for an empty list, the head change.
   */
  method PushItem(list: ListRef?, item: ListItem?, ghost nodes: seq<ListItem>, ghost tail: seq<ListItem>)
    returns (ghost nodes': seq<ListItem>)
    requires list != null ==> IsList(list.head, nodes)
    requires IsList(item, tail) && Disjoint(nodes, tail)
    modifies list, nodes`next
    ensures list == null ==> forall n :: n in nodes ==> n.next == old(n.next)
    ensures list != null ==> nodes' == nodes + tail && IsList(list.head, nodes')
    ensures list != null && nodes != [] ==> list.head == old(list.head)
  {
    nodes' := nodes;
    if list != null {
      if list.head == null {
        list.head := item;
        nodes' := tail;
      } else {
        var current := list.head;
        ghost var i := 0;
        while current.next != null
          invariant 0 <= i < |nodes| && current == nodes[i]
          decreases |nodes| - i
        {
          assert Linked(nodes, i);
          current := current.next;
          i := i + 1;
        }
        LastNodeEndsList(list.head, nodes, i);
        assert current !in tail;
        current.next := item;
        nodes' := nodes + tail;
        forall k | 0 <= k < |nodes| - 1
          ensures Linked(nodes, k)
        {
          assert Apart(nodes, k, i) && old(Linked(nodes, k));
        }
        JoinAfterLast(nodes, tail);
      }
    }
  }

  /**
   * `add_particle`: a fresh node holding `particle` is linked after the last
   * node of the non-empty list headed by `list` (the source dereferences
   * `list` without a check), and is returned.
   */
  method AddParticle(list: ListItem, particle: Particle, ghost nodes: seq<ListItem>)
    returns (item: ListItem, ghost nodes': seq<ListItem>)
    requires IsList(list, nodes)
    modifies nodes`next
    ensures fresh(item) && item.particle == particle && item.next == null
    ensures nodes' == nodes + [item] && IsList(list, nodes')
  {
    item := new ListItem(particle);
    var current := list;
    ghost var i := 0;
    while current.next != null
      invariant 0 <= i < |nodes| && current == nodes[i]
      decreases |nodes| - i
    {
      assert Linked(nodes, i);
      current := current.next;
      i := i + 1;
    }
    LastNodeEndsList(list, nodes, i);
    current.next := item;
    nodes' := nodes + [item];
    forall k | 0 <= k < |nodes| - 1
      ensures Linked(nodes, k)
    {
      assert Apart(nodes, k, i) && old(Linked(nodes, k));
    }
    JoinAfterLast(nodes, [item]);
  }

  /**
   * `previous->next = current->next` in `remove_item`: `current`, the node
   * after `previous`, is bypassed, and the list loses exactly that node.
   */
  method Bypass(head: ListItem?, previous: ListItem, current: ListItem, ghost nodes: seq<ListItem>, ghost i: int)
    requires IsList(head, nodes) && 0 < i < |nodes| && previous == nodes[i - 1] && current == nodes[i]
    modifies previous`next
    ensures IsList(head, nodes[..i] + nodes[i + 1..])
    ensures previous.next == old(current.next)
  {
    assert Linked(nodes, i - 1) && Apart(nodes, i - 1, i);
    if i < |nodes| - 1 {
      assert Linked(nodes, i) && Apart(nodes, i - 1, |nodes| - 1);
    }
    previous.next := current.next;
    ghost var nodes' := nodes[..i] + nodes[i + 1..];
    assert forall k :: 0 <= k < |nodes'| ==> nodes'[k] == if k < i then nodes[k] else nodes[k + 1];
    forall k | 0 <= k < |nodes'| - 1
      ensures Linked(nodes', k)
    {
      if k < i - 1 {
        assert Apart(nodes, k, i - 1) && old(Linked(nodes, k));
      } else if k >= i {
        assert Apart(nodes, i - 1, k + 1) && old(Linked(nodes, k + 1));
      }
    }
    forall a, b | 0 <= a < b < |nodes'|
      ensures Apart(nodes', a, b)
    {
      assert Apart(nodes, if a < i then a else a + 1, if b < i then b else b + 1);
    }
  }

  /**
   * `remove_item`: when the list holds `item`, that node is unlinked (the head
   * moves on when it was the first), the other nodes keep their order, and
   * the node that followed it is returned (`at` is the position the node
   * had). With a `null` handle, an empty list, or an item not in the list,
   * nothing changes and `null` is returned. The source also frees the node;
   * the model does not.
   */
  method RemoveItem(list: ListRef?, item: ListItem?, ghost nodes: seq<ListItem>)
    returns (r: ListItem?, ghost nodes': seq<ListItem>, ghost at: int)
    requires list != null ==> IsList(list.head, nodes)
    modifies list, nodes`next
    ensures list == null || item !in nodes ==>
      && r == null && nodes' == nodes
      && (list != null ==> list.head == old(list.head))
      && (forall n :: n in nodes ==> n.next == old(n.next))
    ensures list != null ==> IsList(list.head, nodes')
    ensures list != null && item in nodes ==>
      && 0 <= at < |nodes| && nodes[at] == item
      && nodes' == nodes[..at] + nodes[at + 1..]
      && r == (if at + 1 < |nodes| then nodes[at + 1] else null)
      && item.next == old(item.next)
  {
    nodes' := nodes;
    at := 0;
    if list == null || list.head == null {
      return null, nodes', at;
    }
    var current := list.head;
    var previous: ListItem? := null;
    ghost var i := 0;
    while current != item && current.next != null
      invariant 0 <= i < |nodes| && current == nodes[i]
      invariant previous == if i == 0 then null else nodes[i - 1]
      invariant forall j :: 0 <= j < i ==> nodes[j] != item
      decreases |nodes| - i
    {
      assert Linked(nodes, i);
      previous := current;
      current := current.next;
      i := i + 1;
    }
    if current == item {
      if i < |nodes| - 1 {
        assert Linked(nodes, i);
      }
      nodes' := nodes[..i] + nodes[i + 1..];
      if previous != null {
        assert Apart(nodes, i - 1, i);
        Bypass(list.head, previous, current, nodes, i);
      } else {
        TailIsList(list.head, nodes);
        assert nodes' == nodes[1..];
        list.head := current.next;
      }
      r := current.next;
      return r, nodes', i;
    }
    LastNodeEndsList(list.head, nodes, i);
    r := null;
  }
}

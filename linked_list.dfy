/** The doubly linked list with a head and a tail sentinel that owns the map's entries and
    fixes their order (the nested `LinkedList` of linked_hashmap.hpp, as `elemTable` uses it).
    Nodes live in an arena: a node pointer is an index into `nodes`, the null pointer is
    `Nil`, and the sentinels are the nodes `Head` and `Tail`. */
module LinkedLists {
  import opened Sequences

  datatype Option<T> = None | Some(value: T)

  /** A `prev` or `next` pointer. */
  datatype Link = Nil | Ref(to: nat)

  /** A list node; `val` is `None` in the two sentinels, which hold no element. */
  datatype Node<E> = Node(val: Option<E>, prev: Link, next: Link)

  /** The address of a list's head sentinel, which iterators carry to tell which container
      issued them: a fresh object per list, compared by reference. */
  class ListTag { }

  const Head: nat := 0
  const Tail: nat := 1

  /** The handles `w` are nodes of the arena, and consecutive ones point at each other both
      ways. */
  ghost predicate Linked<E>(nodes: seq<Node<E>>, w: seq<nat>)
  {
    (forall i :: 0 <= i < |w| ==> w[i] < |nodes|) &&
    (forall i :: 0 <= i < |w| - 1 ==>
       nodes[w[i]].next == Ref(w[i + 1]) && nodes[w[i + 1]].prev == Ref(w[i]))
  }

  /** Splicing a detached node `cur` in between the neighbours `w[k]` and `w[k + 1]` by
      rewiring four pointers yields the chain with `cur` at position `k + 1`. */
  lemma LinkAfter<E>(nodes: seq<Node<E>>, nodes': seq<Node<E>>, w: seq<nat>, k: nat, cur: nat)
    requires Linked(nodes, w) && Distinct(w) && k + 1 < |w| && cur < |nodes| && cur !in w
    requires |nodes'| == |nodes|
    requires nodes'[w[k]].next == Ref(cur) && nodes'[w[k]].prev == nodes[w[k]].prev
    requires nodes'[w[k + 1]].prev == Ref(cur) && nodes'[w[k + 1]].next == nodes[w[k + 1]].next
    requires nodes'[cur].prev == Ref(w[k]) && nodes'[cur].next == Ref(w[k + 1])
    requires forall x :: 0 <= x < |nodes| && x != w[k] && x != w[k + 1] && x != cur ==> nodes'[x] == nodes[x]
    ensures Linked(nodes', w[..k + 1] + [cur] + w[k + 1..])
  {
    var w' := w[..k + 1] + [cur] + w[k + 1..];
    forall i | 0 <= i < |w'| ensures w'[i] < |nodes'| {
      if i <= k { assert w'[i] == w[i]; } else if i > k + 1 { assert w'[i] == w[i - 1]; }
    }
    forall i | 0 <= i < |w'| - 1
      ensures nodes'[w'[i]].next == Ref(w'[i + 1]) && nodes'[w'[i + 1]].prev == Ref(w'[i])
    {
      if i < k {
        assert w'[i] == w[i] && w'[i + 1] == w[i + 1];
        assert w[i] != w[k] && w[i] != w[k + 1];
      } else if i == k {
        assert w'[i] == w[k] && w'[i + 1] == cur;
      } else if i == k + 1 {
        assert w'[i] == cur && w'[i + 1] == w[k + 1];
      } else {
        assert w'[i] == w[i - 1] && w'[i + 1] == w[i];
        assert w[i] != w[k] && w[i] != w[k + 1];
      }
    }
  }

  /** Pointing the neighbours `w[k - 1]` and `w[k + 1]` at each other unlinks `w[k]` from
      the chain. */
  lemma Unlink<E>(nodes: seq<Node<E>>, nodes': seq<Node<E>>, w: seq<nat>, k: nat)
    requires Linked(nodes, w) && Distinct(w) && 0 < k < |w| - 1
    requires |nodes'| == |nodes|
    requires nodes'[w[k - 1]].next == Ref(w[k + 1]) && nodes'[w[k - 1]].prev == nodes[w[k - 1]].prev
    requires nodes'[w[k + 1]].prev == Ref(w[k - 1]) && nodes'[w[k + 1]].next == nodes[w[k + 1]].next
    requires forall x :: 0 <= x < |nodes| && x != w[k - 1] && x != w[k] && x != w[k + 1] ==> nodes'[x] == nodes[x]
    ensures Linked(nodes', Without(w, k))
  {
    var w' := Without(w, k);
    forall i | 0 <= i < |w'| ensures w'[i] < |nodes'| {
      if i < k { assert w'[i] == w[i]; } else { assert w'[i] == w[i + 1]; }
    }
    forall i | 0 <= i < |w'| - 1
      ensures nodes'[w'[i]].next == Ref(w'[i + 1]) && nodes'[w'[i + 1]].prev == Ref(w'[i])
    {
      if i < k - 1 {
        assert w'[i] == w[i] && w'[i + 1] == w[i + 1];
        assert w[i] != w[k - 1] && w[i] != w[k] && w[i] != w[k + 1];
        assert w[i + 1] != w[k] && w[i + 1] != w[k + 1];
      } else if i == k - 1 {
        assert w'[i] == w[k - 1] && w'[i + 1] == w[k + 1];
      } else {
        assert w'[i] == w[i + 1] && w'[i + 1] == w[i + 2];
        assert w[i + 2] != w[k - 1] && w[i + 2] != w[k] && w[i + 2] != w[k + 1];
        assert w[i + 1] != w[k - 1] && w[i + 1] != w[k];
      }
    }
  }

  /** Rewriting a node's element keeps every pointer, hence every chain. */
  lemma LinkedKeepsLinks<E>(nodes: seq<Node<E>>, nodes': seq<Node<E>>, w: seq<nat>)
    requires Linked(nodes, w) && |nodes'| == |nodes|
    requires forall x :: 0 <= x < |nodes| ==> nodes'[x].prev == nodes[x].prev && nodes'[x].next == nodes[x].next
    ensures Linked(nodes', w)
  {
  }

  /** The arena holds a well-formed list whose live nodes, front to back, are `order`,
      holding `contents`: the traversal from `Head` to `Tail` passes exactly those nodes,
      each once, with `prev` and `next` agreeing, and the sentinels end in null pointers. */
  ghost predicate Chain<E>(nodes: seq<Node<E>>, order: seq<nat>, contents: seq<E>)
  {
    && |nodes| >= 2
    && |order| == |contents|
    && (forall i :: 0 <= i < |order| ==> 2 <= order[i] < |nodes| && nodes[order[i]].val == Some(contents[i]))
    && Distinct(order)
    && Linked(nodes, [Head] + order + [Tail])
    && nodes[Head].val == None && nodes[Head].prev == Nil
    && nodes[Tail].val == None && nodes[Tail].next == Nil
  }

  /** The traversal of a well-formed list visits no node twice. */
  lemma ChainDistinct<E>(nodes: seq<Node<E>>, order: seq<nat>, contents: seq<E>)
    requires Chain(nodes, order, contents)
    ensures Distinct([Head] + order + [Tail])
  {
    var w := [Head] + order + [Tail];
    forall i, j | 0 <= i < j < |w| ensures w[i] != w[j] {
      if 0 < i && j < |w| - 1 {
        assert w[i] == order[i - 1] && w[j] == order[j - 1];
      } else if i == 0 && j < |w| - 1 {
        assert w[j] == order[j - 1];
      } else if 0 < i {
        assert w[i] == order[i - 1];
      }
    }
  }

  /** Linking the detached node `cur` in after the `k`-th node of the traversal (pointer
      writes `back->prev`, `pos->next`, `cur->prev`, `cur->next`) gives the list with `cur`
      at position `k`. */
  lemma SpliceChain<E>(nodes: seq<Node<E>>, nodes': seq<Node<E>>, order: seq<nat>, contents: seq<E>,
                       k: nat, cur: nat)
    requires Chain(nodes, order, contents) && k <= |order|
    requires 2 <= cur < |nodes| && cur !in order && nodes[cur].val.Some?
    requires var w := [Head] + order + [Tail];
      && |nodes'| == |nodes|
      && nodes'[w[k]] == nodes[w[k]].(next := Ref(cur))
      && nodes'[w[k + 1]] == nodes[w[k + 1]].(prev := Ref(cur))
      && nodes'[cur] == nodes[cur].(prev := Ref(w[k]), next := Ref(w[k + 1]))
      && forall x :: 0 <= x < |nodes| && x != w[k] && x != w[k + 1] && x != cur ==> nodes'[x] == nodes[x]
    ensures Chain(nodes', InsertAt(order, k, cur), InsertAt(contents, k, nodes[cur].val.value))
  {
    var w := [Head] + order + [Tail];
    var order' := order[..k] + [cur] + order[k..];
    var contents' := contents[..k] + [nodes[cur].val.value] + contents[k..];
    ChainDistinct(nodes, order, contents);
    assert cur !in w;
    LinkAfter(nodes, nodes', w, k, cur);
    assert [Head] + order' + [Tail] == w[..k + 1] + [cur] + w[k + 1..];
    forall i | 0 <= i < |order'|
      ensures 2 <= order'[i] < |nodes'| && nodes'[order'[i]].val == Some(contents'[i])
    {
      if i < k { assert order'[i] == order[i] && contents'[i] == contents[i]; }
      else if i > k { assert order'[i] == order[i - 1] && contents'[i] == contents[i - 1]; }
    }
    DistinctInsertAt(order, k, cur);
  }

  /** Pointing the neighbours of the `k`-th live node at each other and nulling its own
      pointers gives the list without it. */
  lemma UnlinkChain<E>(nodes: seq<Node<E>>, nodes': seq<Node<E>>, order: seq<nat>, contents: seq<E>, k: nat)
    requires Chain(nodes, order, contents) && k < |order|
    requires var w := [Head] + order + [Tail];
      && |nodes'| == |nodes|
      && nodes'[w[k]] == nodes[w[k]].(next := Ref(w[k + 2]))
      && nodes'[w[k + 2]] == nodes[w[k + 2]].(prev := Ref(w[k]))
      && nodes'[w[k + 1]] == nodes[w[k + 1]].(prev := Nil, next := Nil)
      && forall x :: 0 <= x < |nodes| && x != w[k] && x != w[k + 1] && x != w[k + 2] ==> nodes'[x] == nodes[x]
    ensures Chain(nodes', Without(order, k), Without(contents, k))
  {
    var w := [Head] + order + [Tail];
    var order' := Without(order, k);
    var contents' := Without(contents, k);
    ChainDistinct(nodes, order, contents);
    Unlink(nodes, nodes', w, k + 1);
    assert [Head] + order' + [Tail] == Without(w, k + 1);
    DistinctWithout(order, k);
    forall i | 0 <= i < |order'|
      ensures 2 <= order'[i] < |nodes'| && nodes'[order'[i]].val == Some(contents'[i])
    {
      if i < k {
        assert order'[i] == order[i] && contents'[i] == contents[i];
        assert order[i] != order[k];
      } else {
        assert order'[i] == order[i + 1] && contents'[i] == contents[i + 1];
        assert order[i + 1] != order[k];
      }
    }
  }

  class LinkedList<E> {
    const tag: ListTag
    var nodes: seq<Node<E>>
    // The live nodes from front to back, and their elements.
    ghost var order: seq<nat>
    ghost var Contents: seq<E>

    /** Every node a traversal from the head sentinel to the tail sentinel visits. */
    ghost function Walk(): seq<nat>
      reads this
    {
      [Head] + order + [Tail]
    }

    ghost predicate Valid()
      reads this
    {
      Chain(nodes, order, Contents)
    }

    /** The pointers between the `i`-th and the next node of the traversal. */
    lemma LinkAt(i: nat)
      requires Valid() && i < |order| + 1
      ensures Walk()[i] < |nodes| && Walk()[i + 1] < |nodes|
      ensures nodes[Walk()[i]].next == Ref(Walk()[i + 1]) && nodes[Walk()[i + 1]].prev == Ref(Walk()[i])
    {
    }

    /** An empty list: the two sentinels pointing at each other. */
    constructor ()
      ensures Valid() && order == [] && Contents == [] && fresh(tag)
    {
      tag := new ListTag;
      nodes := [Node(None, Nil, Ref(Tail)), Node(None, Ref(Head), Nil)];
      order := [];
      Contents := [];
    }

    /** Links the detached node `cur` in right after `pos`, which is the head sentinel or a
        live node. */
    method Insert(pos: nat, cur: nat) returns (r: nat)
      requires Valid()
      requires pos == Head || pos in order
      requires 2 <= cur < |nodes| && cur !in order && nodes[cur].val.Some?
      modifies this
      ensures Valid() && |nodes| == |old(nodes)|
      ensures var k := if pos == Head then 0 else IndexOf(old(order), pos) + 1;
        && order == InsertAt(old(order), k, cur)
        && Contents == InsertAt(old(Contents), k, old(nodes)[cur].val.value)
      ensures r == cur
    {
      ghost var k := if pos == Head then 0 else IndexOf(order, pos) + 1;
      ghost var w := Walk();
      ChainDistinct(nodes, order, Contents);
      assert w[k] == pos;
      LinkAt(k);
      var back := nodes[pos].next.to;
      assert back == w[k + 1] && pos != back && cur !in w;
      var ns := nodes;
      ns := ns[back := ns[back].(prev := Ref(cur))];
      ns := ns[pos := ns[pos].(next := Ref(cur))];
      ns := ns[cur := ns[cur].(prev := Ref(pos))];
      ns := ns[cur := ns[cur].(next := Ref(back))];
      SpliceChain(nodes, ns, order, Contents, k, cur);
      order, Contents := InsertAt(order, k, cur), InsertAt(Contents, k, nodes[cur].val.value);
      nodes := ns;
      r := cur;
    }

    /** Appends a new node holding `x` at the back, right before the tail sentinel. */
    method PushBack(x: E) returns (h: nat)
      requires Valid()
      modifies this
      ensures Valid()
      ensures order == old(order) + [h] && Contents == old(Contents) + [x]
      ensures h == |old(nodes)|
    {
      var newIns := |nodes|;
      ghost var w := Walk();
      LinkAt(|order|);
      nodes := nodes + [Node(Some(x), Nil, Nil)];
      assert Linked(nodes, w);
      var last := nodes[Tail].prev.to;
      assert last == w[|order|];
      if last != Head {
        assert last == order[|order| - 1];
        IndexOfDistinct(order, |order| - 1);
      }
      h := Insert(last, newIns);
      InsertAtEnd(old(order), h);
      InsertAtEnd(old(Contents), x);
    }

    /** Unlinks the live node `pos` from its neighbours and clears its pointers. */
    method Remove(pos: nat) returns (r: nat)
      requires Valid() && pos in order
      modifies this
      ensures Valid() && |nodes| == |old(nodes)|
      ensures var k := IndexOf(old(order), pos);
        order == Without(old(order), k) && Contents == Without(old(Contents), k)
      ensures r == pos && nodes[pos].prev == Nil && nodes[pos].next == Nil
    {
      ghost var k := IndexOf(order, pos);
      ghost var w := Walk();
      ChainDistinct(nodes, order, Contents);
      assert w[k + 1] == pos;
      LinkAt(k);
      LinkAt(k + 1);
      var front := nodes[pos].prev.to;
      var back := nodes[pos].next.to;
      assert front == w[k] && back == w[k + 2] && front != back && front != pos && back != pos;
      var ns := nodes;
      ns := ns[front := ns[front].(next := Ref(back))];
      ns := ns[back := ns[back].(prev := Ref(front))];
      ns := ns[pos := ns[pos].(prev := Nil, next := Nil)];
      UnlinkChain(nodes, ns, order, Contents, k);
      order, Contents := Without(order, k), Without(Contents, k);
      nodes := ns;
      r := pos;
    }

    /** Unlinks and destroys the live node `pos`. */
    method Erase(pos: nat)
      requires Valid() && pos in order
      modifies this
      ensures Valid()
      ensures var k := IndexOf(old(order), pos);
        order == Without(old(order), k) && Contents == Without(old(Contents), k)
    {
      var _ := Remove(pos);
    }

    /** Removes every node between the sentinels, front to back. */
    method Clear()
      requires Valid()
      modifies this
      ensures Valid() && order == [] && Contents == []
    {
      LinkAt(0);
      var cur := nodes[Head].next.to;
      while cur != Tail
        invariant Valid() && cur == Walk()[1]
        decreases |order|
      {
        assert cur == order[0];
        LinkAt(1);
        var tmp := nodes[cur].next.to;
        assert tmp == Walk()[2];
        var _ := Remove(cur);
        cur := tmp;
      }
    }

    /** Whether the head sentinel points straight at the tail sentinel. */
    function Empty(): (r: bool)
      reads this
      requires Valid()
      ensures r <==> Contents == []
    {
      LinkAt(0);
      nodes[Head].next == Ref(Tail)
    }

    /** Overwrites the element of the live node `pos` in place. */
    method Store(pos: nat, x: E)
      requires Valid() && pos in order
      modifies this
      ensures Valid() && order == old(order)
      ensures Contents == old(Contents)[IndexOf(old(order), pos) := x]
    {
      ghost var k := IndexOf(order, pos);
      nodes := nodes[pos := nodes[pos].(val := Some(x))];
      Contents := Contents[k := x];
      LinkedKeepsLinks(old(nodes), nodes, Walk());
      forall i | 0 <= i < |order| ensures nodes[order[i]].val == Some(Contents[i]) {
        if i != k { assert order[i] != order[k]; }
      }
    }

    /** A deep copy: fresh sentinels, then a clone of every element of `other` pushed at the
        back in `other`'s order. */
    constructor Copy(other: LinkedList<E>)
      requires other.Valid()
      ensures Valid() && Contents == other.Contents && fresh(tag)
    {
      tag := new ListTag;
      nodes := [Node(None, Nil, Ref(Tail)), Node(None, Ref(Head), Nil)];
      order := [];
      Contents := [];
      new;
      other.LinkAt(0);
      var cur := other.nodes[Head].next.to;
      ghost var i := 0;
      while cur != Tail
        invariant Valid() && fresh(tag)
        invariant 0 <= i <= |other.order| && cur == other.Walk()[i + 1]
        invariant Contents == other.Contents[..i]
        decreases |other.order| - i
      {
        assert cur == other.order[i];
        other.LinkAt(i + 1);
        var _ := PushBack(other.nodes[cur].val.value);
        cur := other.nodes[cur].next.to;
        i := i + 1;
      }
      assert other.Contents[..i] == other.Contents;
    }
  }
}

/** The intrusive circular list of src/include/list.h, on its nodes. */
module List {

  /** `list_head`, and the structure it is embedded in. A poisoned link is null. */
  class ListHead {
    const owner: object?
    var next: ListHead?
    var prev: ListHead?

    constructor (owner: object?)
      ensures this.owner == owner
    {
      this.owner := owner;
    }
  }

  function After(r: seq<ListHead>, i: nat): ListHead
    requires i < |r|
  {
    if i + 1 < |r| then r[i + 1] else r[0]
  }

  function Behind(r: seq<ListHead>, i: nat): ListHead
    requires i < |r|
  {
    if i > 0 then r[i - 1] else r[|r| - 1]
  }

  predicate Distinct(r: seq<ListHead>) {
    forall i: nat, j: nat :: i < j < |r| ==> r[i] != r[j]
  }

  predicate Linked(r: seq<ListHead>, i: nat)
    reads r
  {
    i < |r| && r[i].next == After(r, i) && r[i].prev == Behind(r, i)
  }

  /**
   The nodes of a ring, from one of them on: each is linked to its neighbours, the last and the first to each other.
   */
  predicate Ring(r: seq<ListHead>)
    reads r
  {
    |r| >= 1 && Distinct(r) && forall i: nat {:trigger Linked(r, i)} :: i < |r| ==> Linked(r, i)
  }

  /** Round the ring, the way there and back ends where it began. */
  lemma NextPrev(r: seq<ListHead>, n: ListHead)
    requires Ring(r) && n in r
    ensures n.next != null && n.next in r && n.next.prev == n
    ensures n.prev != null && n.prev in r && n.prev.next == n
  {
    var i: nat :| i < |r| && r[i] == n;
    assert Linked(r, i);
    var k := if i + 1 < |r| then i + 1 else 0;
    var l := if i > 0 then i - 1 else |r| - 1;
    assert r[k] == After(r, i) && Linked(r, k);
    assert r[l] == Behind(r, i) && Linked(r, l);
  }

  /** A ring may be read from any of its nodes. */
  lemma RingFromAnywhere(r: seq<ListHead>, k: nat)
    requires Ring(r) && k < |r|
    ensures Ring(r[k..] + r[..k])
  {
    var t := r[k..] + r[..k];
    forall i: nat | i < |t|
      ensures Linked(t, i)
    {
      assert Linked(r, if i < |r| - k then k + i else i - (|r| - k));
    }
  }

  /** `init_list_head` */
  method InitListHead(node: ListHead)
    modifies node
    ensures Ring([node])
  {
    node.next, node.prev := node, node;
    assert Linked([node], 0);
  }

  /** `list_is_empty` */
  method ListIsEmpty(head: ListHead, ghost r: seq<ListHead>) returns (b: bool)
    requires Ring(r) && r[0] == head
    ensures b <==> |r| == 1
  {
    assert Linked(r, 0);
    b := head.next == head;
  }

  /** `list_is_tail` */
  method ListIsTail(node: ListHead, head: ListHead, ghost r: seq<ListHead>) returns (b: bool)
    requires Ring(r) && r[0] == head && node in r
    ensures b <==> node == r[|r| - 1]
  {
    ghost var i: nat :| i < |r| && r[i] == node;
    assert Linked(r, i);
    b := node.next == head;
  }

  /** Position `end + 1` of a ring, which is its start behind its last position. */
  function Wrap(t: seq<ListHead>, end: nat): nat
    requires end < |t|
  {
    if end + 1 < |t| then end + 1 else 0
  }

  /** The links between positions that stay neighbours: all but those at j and at `end`. */
  predicate LinkedBut(t: seq<ListHead>, j: nat, end: nat, k: nat)
    reads t
  {
    && j < |t| && end < |t| && k < |t|
    && (k != j && k != end ==> t[k].next == After(t, k))
    && (k != Wrap(t, j) && k != Wrap(t, end) ==> t[k].prev == Behind(t, k))
  }

  /** The nodes at the seams stand nowhere else, and the neighbours the seams get. */
  predicate SeamAt(t: seq<ListHead>, j: nat, end: nat, k: nat) {
    && j < end < |t| && k < |t|
    && (t[k] == t[j] <==> k == j) && (t[k] == t[j + 1] <==> k == j + 1)
    && (t[k] == t[end] <==> k == end) && (t[k] == t[Wrap(t, end)] <==> k == Wrap(t, end))
    && (k == j ==> After(t, k) == t[j + 1]) && (k == j + 1 ==> Behind(t, k) == t[j])
    && (k == end ==> After(t, k) == t[Wrap(t, end)]) && (k == Wrap(t, end) ==> Behind(t, k) == t[end])
  }

  /** A node put behind position i. */
  function InsertedAt(r: seq<ListHead>, i: nat, node: ListHead): seq<ListHead>
    requires i < |r|
  {
    r[..i + 1] + [node] + r[i + 1..]
  }

  lemma DistinctInserted(r: seq<ListHead>, i: nat, node: ListHead)
    requires Distinct(r) && i < |r| && node !in r
    ensures Distinct(InsertedAt(r, i, node))
  {
    var t := InsertedAt(r, i, node);
    forall j: nat, k: nat | j < k < |t|
      ensures t[j] != t[k]
    {
      var a, b := if j <= i then j else j - 1, if k <= i then k else k - 1;
      assert j != i + 1 ==> t[j] == r[a];
      assert k != i + 1 ==> t[k] == r[b];
    }
  }

  /** The links of the ring that stay when a node goes in between two neighbours. */
  lemma LinksAround(r: seq<ListHead>, i: nat, node: ListHead, k: nat)
    requires Ring(r) && i < |r| && node !in r && k < |r| + 1
    ensures LinkedBut(InsertedAt(r, i, node), i, i + 1, k)
  {
    if k != i + 1 {
      assert Linked(r, if k <= i then k else k - 1);
    }
  }

  /** `__list_insert`: the four links at a node that goes in between two neighbours of a ring. */
  method Insert(node: ListHead, prev: ListHead, next: ListHead, ghost t: seq<ListHead>, ghost j: nat)
    requires Distinct(t) && j + 1 < |t| && prev == t[j] && node == t[j + 1] && next == t[Wrap(t, j + 1)]
    requires forall k: nat {:trigger LinkedBut(t, j, j + 1, k)} :: k < |t| ==> LinkedBut(t, j, j + 1, k)
    modifies t
    ensures Ring(t) && prev.next == node && node.prev == prev && node.next == next && next.prev == node
  {
    ghost var wrap := Wrap(t, j + 1);
    forall k: nat | k < |t|
      ensures SeamAt(t, j, j + 1, k)
      ensures k != j && k != j + 1 ==> t[k].next == After(t, k)
      ensures k != j + 1 && k != wrap ==> t[k].prev == Behind(t, k)
    {
      assert LinkedBut(t, j, j + 1, k);
    }
    hide Distinct, LinkedBut;
    next.prev := node;
    node.prev := prev;
    node.next := next;
    prev.next := node;
    forall k: nat | k < |t|
      ensures Linked(t, k)
    {
      assert SeamAt(t, j, j + 1, k);
    }
  }

  /** `list_insert_after` */
  method InsertAfter(node: ListHead, head: ListHead, ghost r: seq<ListHead>, ghost i: nat)
    requires Ring(r) && i < |r| && r[i] == head && node !in r
    modifies node, r
    ensures Ring(InsertedAt(r, i, node)) && head.next == node && node.prev == head && node.next == old(head.next)
  {
    ghost var t := InsertedAt(r, i, node);
    DistinctInserted(r, i, node);
    forall k: nat | k < |t|
      ensures LinkedBut(t, i, i + 1, k) && (t[k] == node || t[k] in r)
    {
      LinksAround(r, i, node, k);
    }
    assert Linked(r, i) && head.next == After(r, i) == t[Wrap(t, i + 1)];
    Insert(node, head, head.next, t, i);
  }

  /** `list_insert_before`: before the head of a list is at its end. */
  method InsertBefore(node: ListHead, tail: ListHead, ghost r: seq<ListHead>)
    requires Ring(r) && r[0] == tail && node !in r
    modifies node, r
    ensures Ring(r + [node]) && tail.prev == node && node.next == tail && node.prev == old(tail.prev)
  {
    ghost var t, i := r + [node], |r| - 1;
    assert t == InsertedAt(r, i, node);
    DistinctInserted(r, i, node);
    forall k: nat | k < |t|
      ensures LinkedBut(t, i, i + 1, k) && (t[k] == node || t[k] in r)
    {
      LinksAround(r, i, node, k);
    }
    assert Linked(r, 0) && tail.prev == r[i] == t[i] && Wrap(t, i + 1) == 0;
    Insert(node, tail.prev, tail, t, i);
  }

  /** Which nodes have a given neighbour. */
  lemma Neighbours(r: seq<ListHead>, i: nat, j: nat)
    requires Distinct(r) && i < |r| && j < |r|
    ensures r[j] == After(r, i) <==> Behind(r, j) == r[i]
    ensures r[j] == Behind(r, i) <==> After(r, j) == r[i]
    ensures r[j] == r[i] <==> j == i
  {
  }

  /** `__list_delete` */
  method Unlink(prev: ListHead, next: ListHead)
    modifies prev`next, next`prev
    ensures prev.next == next && next.prev == prev
  {
    next.prev := prev;
    prev.next := next;
  }

  lemma DistinctDeleted(r: seq<ListHead>, i: nat)
    requires Distinct(r) && i < |r|
    ensures Distinct(r[..i] + r[i + 1..])
  {
  }

  /** Where the node at position j stands after node i has left, and who is next to it then. */
  predicate NeighboursDeleted(r: seq<ListHead>, i: nat, j: nat) {
    && i < |r| && j < |r| && j != i
    && var t, k := r[..i] + r[i + 1..], if j < i then j else j - 1;
    && t[k] == r[j] != r[i]
    && After(t, k) == (if After(r, j) == r[i] then After(r, i) else After(r, j))
    && Behind(t, k) == (if Behind(r, j) == r[i] then Behind(r, i) else Behind(r, j))
    && (r[j] == After(r, i) <==> Behind(r, j) == r[i])
    && (r[j] == Behind(r, i) <==> After(r, j) == r[i])
    && After(r, i) != r[i] && Behind(r, i) != r[i]
  }

  lemma DeletedNeighbours(r: seq<ListHead>, i: nat, j: nat)
    requires Distinct(r) && i < |r| && j < |r| && j != i && |r| > 1
    ensures NeighboursDeleted(r, i, j)
  {
    Neighbours(r, i, j);
    var t := r[..i] + r[i + 1..];
    var k := if j < i then j else j - 1;
    assert t[k] == r[j];
    assert After(t, k) == if After(r, j) == r[i] then After(r, i) else After(r, j) by {
      var a := if j + 1 < |r| then j + 1 else 0;
      assert After(r, j) == r[a] && (r[a] == r[i] <==> a == i);
    }
    assert Behind(t, k) == if Behind(r, j) == r[i] then Behind(r, i) else Behind(r, j) by {
      var a := if j > 0 then j - 1 else |r| - 1;
      assert Behind(r, j) == r[a] && (r[a] == r[i] <==> a == i);
    }
  }

  lemma BeforeDelete(r: seq<ListHead>, i: nat)
    requires Ring(r) && i < |r|
    ensures forall j: nat {:trigger r[j]} :: j < |r| ==> r[j].next == After(r, j) && r[j].prev == Behind(r, j)
    ensures forall j: nat {:trigger NeighboursDeleted(r, i, j)} :: j < |r| && j != i ==> NeighboursDeleted(r, i, j)
    ensures Distinct(r[..i] + r[i + 1..]) && After(r, i) in r && Behind(r, i) in r
    ensures |r| > 1 ==> After(r, i) != r[i] && Behind(r, i) != r[i]
  {
    forall j: nat | j < |r|
      ensures r[j].next == After(r, j) && r[j].prev == Behind(r, j)
    {
      assert Linked(r, j);
    }
    DistinctDeleted(r, i);
    forall j: nat | j < |r| && j != i
      ensures NeighboursDeleted(r, i, j)
    {
      DeletedNeighbours(r, i, j);
    }
  }

  /** `list_delete`: the links of the node that leaves are poisoned. */
  method Delete(node: ListHead, ghost r: seq<ListHead>, ghost i: nat)
    requires Ring(r) && i < |r| && r[i] == node
    modifies r
    ensures |r| > 1 ==> Ring(r[..i] + r[i + 1..])
    ensures node.next == null && node.prev == null
    ensures |r| > 1 ==> var prev, next := old(node.prev), old(node.next);
              prev != null && next != null && prev.next == next && next.prev == prev
  {
    hide After, Behind, Distinct;
    ghost var t := r[..i] + r[i + 1..];
    BeforeDelete(r, i);
    Unlink(node.prev, node.next);
    node.next := null;
    node.prev := null;
    forall j: nat | j < |t|
      ensures Linked(t, j)
    {
      var k := if j < i then j else j + 1;
      assert NeighboursDeleted(r, i, k) && t[j] == r[k];
    }
  }

  /** How replacing node i changes who stands next to position j, and which positions stand next to it. */
  predicate NeighboursReplaced(r: seq<ListHead>, i: nat, src: ListHead, j: nat) {
    && i < |r| && j < |r|
    && After(r[i := src], j) == (if After(r, j) == r[i] then src else After(r, j))
    && Behind(r[i := src], j) == (if Behind(r, j) == r[i] then src else Behind(r, j))
    && (r[j] == After(r, i) <==> Behind(r, j) == r[i])
    && (r[j] == Behind(r, i) <==> After(r, j) == r[i])
    && (r[j] == r[i] <==> j == i)
    && After(r, i) in r && Behind(r, i) in r
  }

  lemma ReplacedNeighbours(r: seq<ListHead>, i: nat, src: ListHead, j: nat)
    requires Distinct(r) && i < |r| && j < |r|
    ensures NeighboursReplaced(r, i, src, j)
  {
    Neighbours(r, i, j);
    var after, behind := if j + 1 < |r| then j + 1 else 0, if j > 0 then j - 1 else |r| - 1;
    assert After(r, j) == r[after] && Behind(r, j) == r[behind];
    assert r[after] == r[i] <==> after == i;
    assert r[behind] == r[i] <==> behind == i;
  }

  lemma DistinctReplaced(r: seq<ListHead>, i: nat, src: ListHead)
    requires Distinct(r) && i < |r| && src !in r
    ensures Distinct(r[i := src])
  {
  }

  /** `list_replace`; a ring of one node becomes the ring of the other. */
  method Replace(dest: ListHead, src: ListHead, ghost r: seq<ListHead>, ghost i: nat)
    requires Ring(r) && i < |r| && r[i] == dest && src !in r
    modifies src, r
    ensures Ring(r[i := src])
  {
    ghost var t := r[i := src];
    forall j: nat | j < |r|
      ensures r[j].next == After(r, j) && r[j].prev == Behind(r, j)
    {
      assert Linked(r, j);
    }
    forall j: nat | j < |r|
      ensures NeighboursReplaced(r, i, src, j)
    {
      ReplacedNeighbours(r, i, src, j);
    }
    DistinctReplaced(r, i, src);
    assert src !in r && NeighboursReplaced(r, i, src, i);
    hide After, Behind, Distinct;
    src.next := dest.next;
    var next := src.next;
    next.prev := src;
    src.prev := dest.prev;
    var prev := src.prev;
    prev.next := src;
    forall j: nat | j < |t|
      ensures Linked(t, j)
    {
      assert NeighboursReplaced(r, i, src, j);
    }
  }

  /** The nodes of one list behind position j of another. */
  function MergedAt(q: seq<ListHead>, j: nat, nodes: seq<ListHead>): seq<ListHead>
    requires j < |q|
  {
    q[..j + 1] + nodes + q[j + 1..]
  }

  predicate Disjoint(q: seq<ListHead>, r: seq<ListHead>) {
    forall i: nat, j: nat :: i < |q| && j < |r| ==> q[i] != r[j]
  }

  /** Where a node of the merged ring comes from. */
  lemma MergedNode(q: seq<ListHead>, r: seq<ListHead>, j: nat, k: nat)
    requires j < |q| && |r| > 1 && k < |MergedAt(q, j, r[1..])|
    ensures MergedAt(q, j, r[1..])[k] == if k <= j then q[k] else if k < j + |r| then r[k - j] else q[k - |r| + 1]
  {
  }

  lemma DistinctMerged(q: seq<ListHead>, r: seq<ListHead>, j: nat)
    requires Distinct(q) && Distinct(r) && Disjoint(q, r) && j < |q| && |r| > 1
    ensures Distinct(MergedAt(q, j, r[1..]))
  {
    var t := MergedAt(q, j, r[1..]);
    forall k: nat, l: nat | k < l < |t|
      ensures t[k] != t[l]
    {
      MergedNode(q, r, j, k);
      MergedNode(q, r, j, l);
    }
  }

  /** The four links at the seams of a merge. */
  method LinkSeams(first: ListHead, last: ListHead, pos: ListHead, temp: ListHead, ghost t: seq<ListHead>,
      ghost j: nat, ghost end: nat)
    requires Distinct(t) && j < end < |t| && pos == t[j] && first == t[j + 1] && last == t[end] &&
      temp == t[Wrap(t, end)]
    requires forall k: nat {:trigger LinkedBut(t, j, end, k)} :: k < |t| ==> LinkedBut(t, j, end, k)
    modifies t
    ensures Ring(t)
  {
    ghost var wrap := Wrap(t, end);
    forall k: nat | k < |t|
      ensures SeamAt(t, j, end, k)
      ensures (k != j && k != end ==> t[k].next == After(t, k)) &&
        (k != j + 1 && k != wrap ==> t[k].prev == Behind(t, k))
    {
      assert LinkedBut(t, j, end, k);
    }
    hide Distinct, LinkedBut;
    first.prev := pos;
    pos.next := first;
    last.next := temp;
    temp.prev := last;
    forall k: nat | k < |t|
      ensures Linked(t, k)
    {
      assert SeamAt(t, j, end, k);
    }
  }

  /** Away from the two seams the links of the merged ring are those of the two old ones. */
  lemma OldLinks(q: seq<ListHead>, r: seq<ListHead>, j: nat, k: nat)
    requires Ring(q) && Ring(r) && j < |q| && |r| > 1 && k < |MergedAt(q, j, r[1..])|
    ensures MergedAt(q, j, r[1..])[k] in q + r && LinkedBut(MergedAt(q, j, r[1..]), j, j + |r| - 1, k)
  {
    var t := MergedAt(q, j, r[1..]);
    MergedNode(q, r, j, k);
    if j < k < j + |r| {
      assert Linked(r, k - j);
    } else {
      assert Linked(q, if k <= j then k else k - |r| + 1);
    }
    MergedNode(q, r, j, if k + 1 < |t| then k + 1 else 0);
    MergedNode(q, r, j, if k > 0 then k - 1 else |t| - 1);
  }

  /** `list_merge`: the nodes of a list, without its head, behind a node of another. */
  method Merge(head: ListHead, pos: ListHead, ghost r: seq<ListHead>, ghost q: seq<ListHead>, ghost j: nat)
    requires Ring(r) && r[0] == head && Ring(q) && j < |q| && q[j] == pos && Disjoint(q, r)
    modifies r, q
    ensures Ring(MergedAt(q, j, r[1..]))
  {
    ghost var t := MergedAt(q, j, r[1..]);
    assert Linked(r, 0) && Linked(q, j);
    var empty := ListIsEmpty(head, r);
    if empty {
      assert t == q;
    } else {
      ghost var end := j + |r| - 1;
      DistinctMerged(q, r, j);
      forall k: nat | k < |t|
        ensures t[k] in q + r && LinkedBut(t, j, end, k)
      {
        OldLinks(q, r, j, k);
      }
      MergedNode(q, r, j, j);
      MergedNode(q, r, j, j + 1);
      MergedNode(q, r, j, end);
      MergedNode(q, r, j, Wrap(t, end));
      assert head.next == t[j + 1] && head.prev == t[end] && pos == t[j] && pos.next == t[Wrap(t, end)];
      hide *;
      LinkSeams(head.next, head.prev, pos, pos.next, t, j, end);
    }
  }
}

/** The value-level picture of the identifier registry: the node records kept in the
    arena, the abstract tree they spell, and reference definitions of what insert,
    delete and the subtree graft do to that tree, with the lemmas that say what they
    mean for the set of keys and the ordering. */
module TreeModel {

  /** A link to a node: absent (Python's None) or the node at an arena index. */
  datatype NodeRef = Nil | At(index: nat)

  /** One UUIDNode: its identifier and its two child links. */
  datatype UUIDNode = UUIDNode(uuid: int, lesser: NodeRef, greater: NodeRef)

  /** The tree an arena spells from a link: every node remembers its arena index. */
  datatype Tree = Empty | Node(lesser: Tree, at: nat, uuid: int, greater: Tree)

  function Keys(t: Tree): set<int>
  {
    match t
    case Empty => {}
    case Node(l, _, k, g) => Keys(l) + {k} + Keys(g)
  }

  function Ids(t: Tree): set<nat>
  {
    match t
    case Empty => {}
    case Node(l, i, _, g) => Ids(l) + {i} + Ids(g)
  }

  /** The link a parent slot holds when it points at t. */
  function RootRef(t: Tree): NodeRef
  {
    if t.Empty? then Nil else At(t.at)
  }

  /** Strict binary-search-tree ordering: lesser keys < node key < greater keys. */
  ghost predicate Ordered(t: Tree)
  {
    match t
    case Empty => true
    case Node(l, _, k, g) =>
      (forall x :: x in Keys(l) ==> x < k) &&
      (forall x :: x in Keys(g) ==> k < x) &&
      Ordered(l) && Ordered(g)
  }

  /** Every node of t sits at its own arena index: no sharing, no cycles. */
  ghost predicate UniqueIds(t: Tree)
  {
    match t
    case Empty => true
    case Node(l, i, _, g) =>
      i !in Ids(l) && i !in Ids(g) && Ids(l) !! Ids(g) && UniqueIds(l) && UniqueIds(g)
  }

  /** The arena, read from link r, spells exactly the tree t. */
  ghost predicate Represents(nodes: seq<UUIDNode>, r: NodeRef, t: Tree)
    decreases t
  {
    match t
    case Empty => r == Nil
    case Node(l, i, k, g) =>
      r == At(i) && i < |nodes| && nodes[i].uuid == k &&
      Represents(nodes, nodes[i].lesser, l) && Represents(nodes, nodes[i].greater, g)
  }

  /** The arena `after` is `before` with one empty child slot of node p filled with the
      link c; every other node record, and the rest of node p, is as it was. */
  ghost predicate FillsSlot(before: seq<UUIDNode>, after: seq<UUIDNode>, p: nat, c: NodeRef)
  {
    |after| == |before| && p < |before| &&
    (forall j :: 0 <= j < |before| && j != p ==> after[j] == before[j]) &&
    ((before[p].lesser == Nil && after[p] == before[p].(lesser := c)) ||
     (before[p].greater == Nil && after[p] == before[p].(greater := c)))
  }

  // ---------------------------------------------------------------------------
  // Reference definitions of the three tree operations

  /** Insert k as a new leaf stored at arena index n, unless k is already on its search path. */
  function TreeInsert(t: Tree, k: int, n: nat): Tree
  {
    match t
    case Empty => Node(Empty, n, k, Empty)
    case Node(l, i, x, g) =>
      if x == k then t
      else if x > k then Node(TreeInsert(l, k, n), i, x, g)
      else Node(l, i, x, TreeInsert(g, k, n))
  }

  /** The intended graft: descend t by comparison with the root of s and hang s, whole,
      at the first empty slot. */
  function SendDown(t: Tree, s: Tree): Tree
    requires s.Node?
  {
    match t
    case Empty => s
    case Node(l, i, x, g) =>
      if x > s.uuid then Node(SendDown(l, s), i, x, g)
      else Node(l, i, x, SendDown(g, s))
  }

  /** What replaces a found node, by its child configuration: both children (the lesser
      subtree takes the slot and the greater one is sent down into it), only lesser,
      only greater, none. */
  function RemoveRoot(t: Tree): Tree
    requires t.Node?
  {
    if t.lesser.Node? && t.greater.Node? then SendDown(t.lesser, t.greater)
    else if t.lesser.Node? then t.lesser
    else if t.greater.Node? then t.greater
    else Empty
  }

  /** Delete k: follow the search path and replace the node holding k. */
  function TreeDelete(t: Tree, k: int): Tree
  {
    match t
    case Empty => Empty
    case Node(l, i, x, g) =>
      if x == k then RemoveRoot(t)
      else if x > k then Node(TreeDelete(l, k), i, x, g)
      else Node(l, i, x, TreeDelete(g, k))
  }

  /** The node stored at arena index n, replaced by an empty slot (n must be a leaf). */
  function RemoveLeaf(t: Tree, n: nat): Tree
  {
    match t
    case Empty => Empty
    case Node(l, i, x, g) =>
      if i == n && l.Empty? && g.Empty? then Empty
      else Node(RemoveLeaf(l, n), i, x, RemoveLeaf(g, n))
  }

  // ---------------------------------------------------------------------------
  // Search

  /** On an ordered tree membership is decided by the search path, one comparison per level. */
  lemma SearchStep(t: Tree, k: int)
    requires Ordered(t) && t.Node?
    ensures k in Keys(t) <==>
      k == t.uuid || (t.uuid > k && k in Keys(t.lesser)) || (t.uuid < k && k in Keys(t.greater))
  {
  }

  // ---------------------------------------------------------------------------
  // Insert

  /** Insert adds exactly k to the key set. */
  lemma {:induction false} InsertKeys(t: Tree, k: int, n: nat)
    ensures Keys(TreeInsert(t, k, n)) == Keys(t) + {k}
  {
    match t
    case Empty =>
    case Node(l, i, x, g) =>
      if x > k { InsertKeys(l, k, n); } else if x < k { InsertKeys(g, k, n); }
  }

  /** Insert keeps the strict ordering. */
  lemma {:induction false} InsertOrdered(t: Tree, k: int, n: nat)
    requires Ordered(t)
    ensures Ordered(TreeInsert(t, k, n))
  {
    match t
    case Empty =>
    case Node(l, i, x, g) =>
      if x > k {
        InsertOrdered(l, k, n);
        InsertKeys(l, k, n);
      } else if x < k {
        InsertOrdered(g, k, n);
        InsertKeys(g, k, n);
      }
  }

  /** A present key leaves the tree exactly as it was. */
  lemma {:induction false} InsertPresent(t: Tree, k: int, n: nat)
    requires Ordered(t) && k in Keys(t)
    ensures TreeInsert(t, k, n) == t
  {
    match t
    case Node(l, i, x, g) =>
      if x > k { InsertPresent(l, k, n); } else if x < k { InsertPresent(g, k, n); }
  }

  /** An absent key gets a fresh node at index n; no other node is shared or duplicated. */
  lemma {:induction false} InsertIds(t: Tree, k: int, n: nat)
    requires UniqueIds(t) && n !in Ids(t) && k !in Keys(t)
    ensures Ids(TreeInsert(t, k, n)) == Ids(t) + {n}
    ensures UniqueIds(TreeInsert(t, k, n))
  {
    match t
    case Empty =>
    case Node(l, i, x, g) =>
      if x > k { InsertIds(l, k, n); } else { InsertIds(g, k, n); }
  }

  /** The new node is a leaf hung in a slot that was empty: taking it away again gives
      back the old tree, every old node with the same links. */
  lemma {:induction false} InsertOnlyHangsLeaf(t: Tree, k: int, n: nat)
    requires n !in Ids(t) && k !in Keys(t)
    ensures RemoveLeaf(TreeInsert(t, k, n), n) == t
  {
    match t
    case Empty =>
    case Node(l, i, x, g) =>
      RemoveLeafAbsent(l, n);
      RemoveLeafAbsent(g, n);
      if x > k { InsertOnlyHangsLeaf(l, k, n); } else { InsertOnlyHangsLeaf(g, k, n); }
  }

  lemma {:induction false} RemoveLeafAbsent(t: Tree, n: nat)
    requires n !in Ids(t)
    ensures RemoveLeaf(t, n) == t
  {
    match t
    case Empty =>
    case Node(l, i, x, g) => RemoveLeafAbsent(l, n); RemoveLeafAbsent(g, n);
  }

  // ---------------------------------------------------------------------------
  // The graft

  /** Every key of s lies below x. */
  ghost predicate AllBelow(s: Tree, x: int)
  {
    forall y :: y in Keys(s) ==> y < x
  }

  /** Every key of s lies above x. */
  ghost predicate AllAbove(s: Tree, x: int)
  {
    forall y :: y in Keys(s) ==> x < y
  }

  /** No key of t falls strictly inside the key range of s, so s fits in one empty slot of t. */
  ghost predicate FitsIn(t: Tree, s: Tree)
  {
    forall x :: x in Keys(t) ==> AllBelow(s, x) || AllAbove(s, x)
  }

  /** Grafting brings every key of both trees along and loses none. */
  lemma {:induction false} SendDownKeys(t: Tree, s: Tree)
    requires s.Node?
    ensures Keys(SendDown(t, s)) == Keys(t) + Keys(s)
  {
    match t
    case Empty =>
    case Node(l, i, x, g) =>
      if x > s.uuid { SendDownKeys(l, s); } else { SendDownKeys(g, s); }
  }

  /** A subtree that fits in one slot is grafted without breaking the ordering. */
  lemma {:induction false} SendDownOrdered(t: Tree, s: Tree)
    requires s.Node? && Ordered(t) && Ordered(s) && FitsIn(t, s)
    ensures Ordered(SendDown(t, s))
  {
    match t
    case Empty =>
    case Node(l, i, x, g) =>
      assert x in Keys(t);
      assert s.uuid in Keys(s);
      if x > s.uuid {
        assert AllBelow(s, x);
        SendDownOrdered(l, s);
        SendDownKeys(l, s);
      } else {
        assert AllAbove(s, x);
        SendDownOrdered(g, s);
        SendDownKeys(g, s);
      }
  }

  /** Grafting keeps every arena index in use exactly once. */
  lemma {:induction false} SendDownIds(t: Tree, s: Tree)
    requires s.Node? && UniqueIds(t) && UniqueIds(s) && Ids(t) !! Ids(s)
    ensures Ids(SendDown(t, s)) == Ids(t) + Ids(s)
    ensures UniqueIds(SendDown(t, s))
  {
    match t
    case Empty =>
    case Node(l, i, x, g) =>
      if x > s.uuid { SendDownIds(l, s); } else { SendDownIds(g, s); }
  }

  /** Grafting into a non-empty tree keeps that tree's root in place. */
  lemma SendDownRoot(t: Tree, s: Tree)
    requires s.Node? && t.Node?
    ensures RootRef(SendDown(t, s)) == RootRef(t)
  {
  }

  /** The situation of a node with both children: all greater keys exceed all lesser
      keys, so the greater subtree fits in one slot of the lesser one. */
  lemma GreaterFitsInLesser(t: Tree)
    requires t.Node? && Ordered(t)
    ensures FitsIn(t.lesser, t.greater)
  {
    forall x | x in Keys(t.lesser) ensures AllAbove(t.greater, x) {
    }
  }

  /** The keys in ascending walk order: lesser subtree, node, greater subtree. */
  function InOrder(t: Tree): seq<int>
  {
    match t
    case Empty => []
    case Node(l, _, k, g) => InOrder(l) + [k] + InOrder(g)
  }

  /** When s lies above every key of t, the graft hangs s after all of t in walk order. */
  lemma {:induction false} SendDownInOrder(t: Tree, s: Tree)
    requires s.Node? && forall x :: x in Keys(t) ==> AllAbove(s, x)
    ensures InOrder(SendDown(t, s)) == InOrder(t) + InOrder(s)
  {
    match t
    case Empty =>
    case Node(l, i, x, g) =>
      assert x in Keys(t) && s.uuid in Keys(s);
      SendDownInOrder(g, s);
  }

  // ---------------------------------------------------------------------------
  // Delete

  /** Replacing a found node, in any of the four cases, takes out exactly its key and its
      index and keeps the ordering. */
  lemma RemoveRootFacts(t: Tree)
    requires t.Node? && Ordered(t) && UniqueIds(t)
    ensures Keys(RemoveRoot(t)) == Keys(t) - {t.uuid}
    ensures Ordered(RemoveRoot(t))
    ensures UniqueIds(RemoveRoot(t)) && Ids(RemoveRoot(t)) == Ids(t) - {t.at}
  {
    if t.lesser.Node? && t.greater.Node? {
      GreaterFitsInLesser(t);
      SendDownKeys(t.lesser, t.greater);
      SendDownOrdered(t.lesser, t.greater);
      SendDownIds(t.lesser, t.greater);
      assert t.uuid !in Keys(t.lesser) + Keys(t.greater);
    } else {
      RemoveOneOrNone(t);
    }
  }

  lemma RemoveOneOrNone(t: Tree)
    requires t.Node? && Ordered(t) && UniqueIds(t) && (t.lesser.Empty? || t.greater.Empty?)
    ensures RemoveRoot(t) == if t.lesser.Node? then t.lesser else t.greater
    ensures Keys(RemoveRoot(t)) == Keys(t) - {t.uuid}
    ensures Ids(RemoveRoot(t)) == Ids(t) - {t.at}
  {
    assert t.uuid !in Keys(t.lesser) + Keys(t.greater);
  }

  /** Removing a node closes the gap it leaves in walk order, whatever its children. */
  lemma RemoveRootInOrder(t: Tree)
    requires t.Node? && Ordered(t)
    ensures InOrder(RemoveRoot(t)) == InOrder(t.lesser) + InOrder(t.greater)
  {
    if t.lesser.Node? && t.greater.Node? {
      GreaterFitsInLesser(t);
      SendDownInOrder(t.lesser, t.greater);
    }
  }

  /** Delete takes exactly k out of the key set. */
  lemma {:induction false} DeleteKeys(t: Tree, k: int)
    requires Ordered(t) && UniqueIds(t)
    ensures Keys(TreeDelete(t, k)) == Keys(t) - {k}
  {
    match t
    case Empty =>
    case Node(l, i, x, g) =>
      if x == k { RemoveRootFacts(t); }
      else if x > k { DeleteKeys(l, k); }
      else { DeleteKeys(g, k); }
  }

  /** Delete keeps the strict ordering, and every remaining node at its own index. */
  lemma {:induction false} DeleteValid(t: Tree, k: int)
    requires Ordered(t) && UniqueIds(t)
    ensures Ordered(TreeDelete(t, k)) && UniqueIds(TreeDelete(t, k))
    ensures Ids(TreeDelete(t, k)) <= Ids(t)
  {
    match t
    case Empty =>
    case Node(l, i, x, g) =>
      if x == k { RemoveRootFacts(t); }
      else if x > k { DeleteValid(l, k); DeleteKeys(l, k); }
      else { DeleteValid(g, k); DeleteKeys(g, k); }
  }

  /** Deleting an absent key changes nothing. */
  lemma {:induction false} DeleteAbsent(t: Tree, k: int)
    requires k !in Keys(t)
    ensures TreeDelete(t, k) == t
  {
    match t
    case Empty =>
    case Node(l, i, x, g) =>
      if x > k { DeleteAbsent(l, k); } else if x < k { DeleteAbsent(g, k); }
  }
}

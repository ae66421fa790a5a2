/** The subtree graft of `_send_down_node_from_node` exactly as it is written, and two
    inputs on which it does not do what its comments say. The rest of the model uses the
    intended graft, Registry.UUIDTree.SendDownFromNode, specified by TreeModel.SendDown. */
module SendDownDefect {
  import opened TreeModel

  /** How the literal loop ends: it returns with the arena updated, dereferences None,
      or is still looping when the iteration budget runs out. */
  datatype Outcome = Attached(nodes: seq<UUIDNode>) | NoneDereferenced | StillLooping

  /** Every link in the arena points at a record of the arena. */
  ghost predicate LinksInRange(nodes: seq<UUIDNode>)
  {
    forall i :: 0 <= i < |nodes| ==> InRange(nodes, nodes[i].lesser) && InRange(nodes, nodes[i].greater)
  }

  predicate InRange(nodes: seq<UUIDNode>, r: NodeRef)
  {
    r.At? ==> r.index < |nodes|
  }

  /** The loop as written, run for at most fuel iterations: it compares and tests the
      cursor fromNode but steps to the children of node, and writes fromNode into node. */
  function SendDownAsWritten(nodes: seq<UUIDNode>, fromNode: NodeRef, node: nat, fuel: nat): (r: Outcome)
    requires LinksInRange(nodes) && node < |nodes| && InRange(nodes, fromNode)
    ensures r.Attached? ==> |r.nodes| == |nodes| && LinksInRange(r.nodes)
    ensures r.Attached? ==> forall j :: 0 <= j < |nodes| && j != node ==> r.nodes[j] == nodes[j]
    ensures r.Attached? ==> (r.nodes[node].uuid == nodes[node].uuid &&
      (r.nodes[node].lesser == nodes[node].lesser || r.nodes[node].greater == nodes[node].greater))
    decreases fuel
  {
    if fuel == 0 then StillLooping
    else match fromNode
      case Nil => NoneDereferenced
      case At(f) =>
        if nodes[f].uuid > nodes[node].uuid then
          if nodes[f].lesser.At? then SendDownAsWritten(nodes, nodes[node].lesser, node, fuel - 1)
          else Attached(nodes[node := nodes[node].(lesser := fromNode)])
        else
          if nodes[f].greater.At? then SendDownAsWritten(nodes, nodes[node].greater, node, fuel - 1)
          else Attached(nodes[node := nodes[node].(greater := fromNode)])
  }

  // ---------------------------------------------------------------------------
  // Input 1: keys 50, 30, 70, 20, 40, 60, 80 inserted in that order, then delete 30.

  /** The arena after the seven inserts: record i holds the i-th key inserted. */
  const Seven: seq<UUIDNode> := [
    UUIDNode(50, At(1), At(2)), UUIDNode(30, At(3), At(4)), UUIDNode(70, At(5), At(6)),
    UUIDNode(20, Nil, Nil), UUIDNode(40, Nil, Nil), UUIDNode(60, Nil, Nil), UUIDNode(80, Nil, Nil)]

  function Leaf(i: nat, k: int): Tree { Node(Empty, i, k, Empty) }

  const SevenTree: Tree :=
    Node(Node(Leaf(3, 20), 1, 30, Leaf(4, 40)), 0, 50, Node(Leaf(5, 60), 2, 70, Leaf(6, 80)))

  /** The seven inserts, on the reference definition, build exactly this arena's tree, and
      the arena is a valid registry state. */
  lemma SevenIsInserted()
    ensures SevenTree ==
      TreeInsert(TreeInsert(TreeInsert(TreeInsert(TreeInsert(TreeInsert(TreeInsert(
        Empty, 50, 0), 30, 1), 70, 2), 20, 3), 40, 4), 60, 5), 80, 6)
    ensures Represents(Seven, At(0), SevenTree) && Ordered(SevenTree) && UniqueIds(SevenTree)
  {
  }

  /** The arena after the graft as written: record 4 (40) gets the greater link to record 3. */
  const SevenGrafted: seq<UUIDNode> := Seven[4 := UUIDNode(40, Nil, At(3))]

  /** Delete 30 finds record 1 with both children. Line 140 only re-points the root, so the
      graft starts on the arena the inserts built, with from_node = record 3 (20) and
      node = record 4 (40). As written it hangs 20 under 40, and record 3, which takes 30's
      place, reaches only 20: 40 is lost whichever link leads to record 3. */
  lemma AsWrittenLosesKey(fuel: nat)
    requires fuel >= 1
    ensures LinksInRange(Seven)
    ensures SendDownAsWritten(Seven, At(3), 4, fuel) == Attached(SevenGrafted)
    ensures Represents(SevenGrafted, At(3), Leaf(3, 20))
  {
    forall i | 0 <= i < |Seven| ensures InRange(Seven, Seven[i].lesser) && InRange(Seven, Seven[i].greater) {
    }
  }

  /** With the intended graft the same delete keeps every other key: 40 hangs under 20. */
  lemma IntendedKeepsKeys()
    ensures TreeDelete(SevenTree, 30) ==
      Node(Node(Empty, 3, 20, Leaf(4, 40)), 0, 50, Node(Leaf(5, 60), 2, 70, Leaf(6, 80)))
    ensures Keys(TreeDelete(SevenTree, 30)) == {20, 40, 50, 60, 70, 80}
    ensures Ordered(TreeDelete(SevenTree, 30))
  {
    SevenIsInserted();
    DeleteKeys(SevenTree, 30);
    DeleteValid(SevenTree, 30);
  }

  // ---------------------------------------------------------------------------
  // Input 2: keys 30, 20, 40, 25, 35, 45, 37, 42 inserted in that order, then delete 30.

  const Eight: seq<UUIDNode> := [
    UUIDNode(30, At(1), At(2)), UUIDNode(20, Nil, At(3)), UUIDNode(40, At(4), At(5)),
    UUIDNode(25, Nil, Nil), UUIDNode(35, Nil, At(6)), UUIDNode(45, At(7), Nil),
    UUIDNode(37, Nil, Nil), UUIDNode(42, Nil, Nil)]

  const EightTree: Tree :=
    Node(Node(Empty, 1, 20, Leaf(3, 25)), 0, 30,
         Node(Node(Empty, 4, 35, Leaf(6, 37)), 2, 40, Node(Leaf(7, 42), 5, 45, Empty)))

  /** Inserting 30, 20, 40, 25, 35, 45, 37, 42 in order, on the reference definition, builds
      exactly the tree this arena spells. */
  lemma EightIsInserted()
    ensures EightTree ==
      TreeInsert(TreeInsert(TreeInsert(TreeInsert(TreeInsert(TreeInsert(TreeInsert(TreeInsert(
        Empty, 30, 0), 20, 1), 40, 2), 25, 3), 35, 4), 45, 5), 37, 6), 42, 7)
  {
  }

  lemma EightIsValid()
    ensures Represents(Eight, At(0), EightTree) && Ordered(EightTree) && UniqueIds(EightTree)
    ensures LinksInRange(Eight)
  {
    EightRepresented();
    EightOrdered();
    EightLinks();
  }

  lemma EightRepresented()
    ensures Represents(Eight, At(0), EightTree) && UniqueIds(EightTree)
  {
    assert Represents(Eight, At(1), EightTree.lesser);
    assert Represents(Eight, At(2), EightTree.greater);
  }

  lemma EightOrdered()
    ensures Ordered(EightTree)
  {
    assert Ordered(EightTree.greater);
    assert Keys(EightTree.greater) == {35, 37, 40, 42, 45};
  }

  lemma EightLinks()
    ensures LinksInRange(Eight)
  {
    forall i | 0 <= i < |Eight| ensures InRange(Eight, Eight[i].lesser) && InRange(Eight, Eight[i].greater) {
    }
  }

  /** 30 is the root, so line 140 only moves the root; the graft then starts with
      from_node = 20 (record 1) and node = 40 (record 2). As written it steps
      20 -> 45 -> 35 -> 45 -> ... for ever: no iteration budget is enough. */
  lemma AsWrittenDiverges(fuel: nat)
    ensures LinksInRange(Eight)
    ensures SendDownAsWritten(Eight, At(1), 2, fuel) == StillLooping
  {
    EightIsValid();
    if fuel > 0 {
      Cycle(fuel - 1);
    }
  }

  /** From 45 (record 5) the loop goes to 35 (record 4) and back to 45. */
  lemma {:induction false} Cycle(fuel: nat)
    requires LinksInRange(Eight)
    ensures SendDownAsWritten(Eight, At(5), 2, fuel) == StillLooping
    ensures SendDownAsWritten(Eight, At(4), 2, fuel) == StillLooping
    decreases fuel
  {
    if fuel > 0 {
      Cycle(fuel - 1);
    }
  }

  /** The intended graft on the same delete: 40's subtree hangs under 25, and every key
      but 30 stays in an ordered tree. */
  lemma IntendedTerminates()
    ensures TreeDelete(EightTree, 30) ==
      Node(Empty, 1, 20, Node(Empty, 3, 25, EightTree.greater))
    ensures Keys(TreeDelete(EightTree, 30)) == {20, 25, 35, 37, 40, 42, 45}
    ensures Ordered(TreeDelete(EightTree, 30))
  {
    EightIsValid();
    DeleteKeys(EightTree, 30);
    DeleteValid(EightTree, 30);
  }
}

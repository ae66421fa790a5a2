/** The registry's `delete` exactly as it is written. Its `parent` is set to None before the
    walk and never reassigned, because the walk moves only `node`. So every `if parent:` test fails,
    and the found node's replacement becomes the root, whatever the depth of the found node.
    The rest of the model uses the delete as its comments intend, Registry.UUIDTree.Delete,
    specified by TreeModel.TreeDelete. */
module DeleteDefect {
  import opened TreeModel
  import opened SendDownDefect

  /** How the literal delete ends: it returns True with a new arena and root, it returns
      False, the graft dereferences None, or a loop is still running when the iteration
      budget runs out. */
  datatype Deletion = Removed(nodes: seq<UUIDNode>, root: NodeRef) | Missing | Crashed | Looping

  /** The slot value delete writes for a found record: its lesser child when it has one
      (both-children and lesser-only cases), otherwise its greater child, which may be None. */
  function Replacement(x: UUIDNode): NodeRef
  {
    if x.lesser.At? then x.lesser else x.greater
  }

  /** `delete` as written, run for at most fuel iterations of each of its loops. */
  function DeleteAsWritten(nodes: seq<UUIDNode>, root: NodeRef, uuid: int, fuel: nat): (r: Deletion)
    requires LinksInRange(nodes) && InRange(nodes, root)
    ensures r.Removed? ==> |r.nodes| == |nodes| && LinksInRange(r.nodes)
    ensures r.Removed? ==>
      exists i :: 0 <= i < |nodes| && nodes[i].uuid == uuid && r.root == Replacement(nodes[i])
    ensures root.Nil? ==> r == Missing
  {
    if root.Nil? then Missing
    else DeleteFrom(nodes, root, uuid, fuel)
  }

  /** The walk of `delete` from node, with `parent` still None: a found record's
      replacement is written into the root in each of the four cases. */
  function DeleteFrom(nodes: seq<UUIDNode>, node: NodeRef, uuid: int, fuel: nat): (r: Deletion)
    requires LinksInRange(nodes) && InRange(nodes, node)
    ensures r.Removed? ==> |r.nodes| == |nodes| && LinksInRange(r.nodes)
    ensures r.Removed? ==>
      exists i :: 0 <= i < |nodes| && nodes[i].uuid == uuid && r.root == Replacement(nodes[i])
    decreases fuel
  {
    if fuel == 0 then Looping
    else match node
      case Nil => Missing
      case At(i) =>
        var x := nodes[i];
        if x.uuid == uuid then
          if x.lesser.At? && x.greater.At? then
            match SendDownAsWritten(nodes, x.lesser, x.greater.index, fuel)
            case Attached(after) => Removed(after, x.lesser)
            case NoneDereferenced => Crashed
            case StillLooping => Looping
          else if x.lesser.At? then Removed(nodes, x.lesser)
          else if x.greater.At? then Removed(nodes, x.greater)
          else Removed(nodes, Nil)
        else if x.uuid > uuid then DeleteFrom(nodes, x.lesser, uuid, fuel - 1)
        else DeleteFrom(nodes, x.greater, uuid, fuel - 1)
  }

  // ---------------------------------------------------------------------------
  // Input 3: keys 50 and 30 inserted in that order, then delete 30.

  const TwoKeys: seq<UUIDNode> := [UUIDNode(50, At(1), Nil), UUIDNode(30, Nil, Nil)]

  const TwoTree: Tree := Node(Leaf(1, 30), 0, 50, Empty)

  /** The two inserts build this arena, and it is a valid registry state. */
  lemma TwoKeysIsInserted()
    ensures TwoTree == TreeInsert(TreeInsert(Empty, 50, 0), 30, 1)
    ensures Represents(TwoKeys, At(0), TwoTree) && Ordered(TwoTree) && UniqueIds(TwoTree)
    ensures LinksInRange(TwoKeys)
  {
    forall i | 0 <= i < |TwoKeys| ensures InRange(TwoKeys, TwoKeys[i].lesser) && InRange(TwoKeys, TwoKeys[i].greater) {
    }
  }

  /** As written, the leaf 30 is found with `parent` None, so the no-children case sets the
      root to None: the registry is empty and 50 is lost. */
  lemma AsWrittenEmptiesTree(fuel: nat)
    requires fuel >= 2
    ensures LinksInRange(TwoKeys)
    ensures DeleteAsWritten(TwoKeys, At(0), 30, fuel) == Removed(TwoKeys, Nil)
    ensures Represents(TwoKeys, Nil, Empty)
  {
    TwoKeysIsInserted();
    // 50 > 30: one step to the lesser child, record 1, which holds 30 and has no child
    assert DeleteFrom(TwoKeys, At(0), 30, fuel) == DeleteFrom(TwoKeys, At(1), 30, fuel - 1);
  }

  /** The intended delete of 30 on the same input clears 50's lesser slot and keeps 50. */
  lemma IntendedKeepsParent()
    ensures TreeDelete(TwoTree, 30) == Leaf(0, 50)
    ensures Keys(TreeDelete(TwoTree, 30)) == {50}
  {
  }

  /** As written, deleting 30 from the seven-key arena makes record 3 (20) the root, and the
      graft hangs 20 under the unreachable 40. Only 20 is left: 40, 50, 60, 70 and 80 are lost. */
  lemma AsWrittenKeepsOnlyTwenty(fuel: nat)
    requires fuel >= 2
    ensures LinksInRange(Seven)
    ensures DeleteAsWritten(Seven, At(0), 30, fuel) == Removed(SevenGrafted, At(3))
    ensures Represents(SevenGrafted, At(3), Leaf(3, 20))
  {
    AsWrittenLosesKey(fuel - 1);
    // 50 > 30: one step to record 1, which holds 30 and has both children
    assert DeleteFrom(Seven, At(0), 30, fuel) == DeleteFrom(Seven, At(1), 30, fuel - 1);
  }

  /** As written, deleting the root 30 from the eight-key arena never returns. */
  lemma AsWrittenRootDeleteDiverges(fuel: nat)
    ensures LinksInRange(Eight)
    ensures DeleteAsWritten(Eight, At(0), 30, fuel) == Looping
  {
    EightIsValid();
    if fuel > 0 {
      AsWrittenDiverges(fuel);
    }
  }
}

/** The registry of issued identifiers: an unbalanced binary search tree whose nodes live
    in an arena and are addressed by index. */
module Registry {
  import opened TreeModel
  import opened Arena

  class UUIDTree {
    var root: NodeRef
    /** The node store: record i is the UUIDNode at index i; a deleted node's record stays
        behind, unreachable. */
    var nodes: seq<UUIDNode>
    /** The tree that the arena spells from root. */
    ghost var tree: Tree

    ghost predicate Valid()
      reads this
    {
      Represents(nodes, root, tree) && Ordered(tree) && UniqueIds(tree)
    }

    /** The identifiers the registry holds. */
    ghost function Contents(): set<int>
      reads this
    {
      Keys(tree)
    }

    constructor ()
      ensures Valid() && Contents() == {}
      ensures root == Nil && nodes == []
    {
      root := Nil;
      nodes := [];
      tree := Empty;
    }

    /** Membership walk from the root, one comparison per level. */
    method Find(uuid: int) returns (found: bool)
      requires Valid()
      ensures found <==> uuid in Contents()
    {
      if root.Nil? {
        return false;
      }
      var node := root;
      ghost var t := tree;
      while node.At?
        invariant Represents(nodes, node, t) && Ordered(t)
        invariant uuid in Contents() <==> uuid in Keys(t)
        decreases t
      {
        var n := nodes[node.index];
        SearchStep(t, uuid);
        if n.uuid == uuid {
          return true;
        }
        if n.uuid > uuid {
          node, t := n.lesser, t.lesser;
        } else {
          node, t := n.greater, t.greater;
        }
      }
      return false;
    }

    /** Walks down from node (the root) and hangs a new leaf for uuid in the first empty
        slot on its search path, unless uuid is met on the way. */
    method InsertFromNode(node: nat, uuid: int) returns (inserted: bool)
      requires Valid() && root == At(node)
      modifies this
      ensures Valid()
      ensures inserted <==> uuid !in old(Contents())
      ensures Contents() == old(Contents()) + {uuid}
      ensures tree == TreeInsert(old(tree), uuid, |old(nodes)|)
      ensures root == old(root)
      ensures !inserted ==> nodes == old(nodes)
      ensures inserted ==> exists p :: FillsSlot(old(nodes) + [UUIDNode(uuid, Nil, Nil)], nodes, p, At(|old(nodes)|))
    {
      var n := |nodes|;
      var cur := node;
      ghost var path: seq<Frame> := [];
      ghost var t := tree;
      RepresentsBound(nodes, root, tree);
      while true
        invariant nodes == old(nodes) && tree == old(tree) && root == old(root)
        invariant tree == Plug(path, t) && t.Node? && t.at == cur
        invariant Represents(nodes, At(cur), t) && Ordered(t) && UniqueIds(t)
        invariant TreeInsert(tree, uuid, n) == Plug(path, TreeInsert(t, uuid, n))
        invariant uuid in Keys(tree) <==> uuid in Keys(t)
        decreases t
      {
        var x := nodes[cur];
        SearchStep(t, uuid);
        if x.uuid == uuid {
          InsertPresent(tree, uuid, n);
          return false;
        }
        PlugInner(nodes, root, path, t);
        if x.uuid > uuid {
          if x.lesser.At? {
            var f := WentLesser(cur, x.uuid, t.greater);
            PlugStep(path, f, t.lesser);
            path, cur, t := path + [f], x.lesser.index, t.lesser;
          } else {
            nodes := nodes + [UUIDNode(uuid, Nil, Nil)];
            ghost var before := nodes;
            nodes := nodes[cur := x.(lesser := At(n))];
            assert FillsSlot(before, nodes, cur, At(n));
            ghost var t' := Node(Node(Empty, n, uuid, Empty), cur, x.uuid, t.greater);
            RepresentsBound(old(nodes), x.greater, t.greater);
            RepresentsFrame(old(nodes), nodes, x.greater, t.greater);
            PlugRepresents(old(nodes), nodes, root, path, t, t');
            Commit(TreeInsert(tree, uuid, n), uuid, n);
            return true;
          }
        } else {
          if x.greater.At? {
            var f := WentGreater(t.lesser, cur, x.uuid);
            PlugStep(path, f, t.greater);
            path, cur, t := path + [f], x.greater.index, t.greater;
          } else {
            nodes := nodes + [UUIDNode(uuid, Nil, Nil)];
            ghost var before := nodes;
            nodes := nodes[cur := x.(greater := At(n))];
            assert FillsSlot(before, nodes, cur, At(n));
            ghost var t' := Node(t.lesser, cur, x.uuid, Node(Empty, n, uuid, Empty));
            RepresentsBound(old(nodes), x.lesser, t.lesser);
            RepresentsFrame(old(nodes), nodes, x.lesser, t.lesser);
            PlugRepresents(old(nodes), nodes, root, path, t, t');
            Commit(TreeInsert(tree, uuid, n), uuid, n);
            return true;
          }
        }
      }
    }

    /** Records the tree that a successful insert produced, with the facts Valid() needs. */
    ghost method Commit(t: Tree, uuid: int, n: nat)
      requires Ordered(tree) && UniqueIds(tree) && n !in Ids(tree) && uuid !in Keys(tree)
      requires t == TreeInsert(tree, uuid, n)
      modifies this`tree
      ensures tree == t && Keys(t) == Keys(old(tree)) + {uuid}
      ensures Ordered(t) && UniqueIds(t)
    {
      InsertKeys(tree, uuid, n);
      InsertOrdered(tree, uuid, n);
      InsertIds(tree, uuid, n);
      tree := t;
    }

    /** Adds uuid unless it is already held; the result says whether a node was created. */
    method Insert(uuid: int) returns (inserted: bool)
      requires Valid()
      modifies this
      ensures Valid()
      ensures inserted <==> uuid !in old(Contents())
      ensures Contents() == old(Contents()) + {uuid}
      ensures tree == TreeInsert(old(tree), uuid, |old(nodes)|)
      ensures !inserted ==> root == old(root) && nodes == old(nodes)
      ensures inserted && old(root).Nil? ==> root == At(|old(nodes)|) && nodes == old(nodes) + [UUIDNode(uuid, Nil, Nil)]
      ensures inserted && old(root).At? ==>
        root == old(root) && exists p :: FillsSlot(old(nodes) + [UUIDNode(uuid, Nil, Nil)], nodes, p, At(|old(nodes)|))
    {
      if root.Nil? {
        var n := |nodes|;
        nodes := nodes + [UUIDNode(uuid, Nil, Nil)];
        root := At(n);
        tree := Node(Empty, n, uuid, Empty);
        return true;
      }
      inserted := InsertFromNode(root.index, uuid);
    }
    /** The graft as its comments intend it: descend from fromNode by comparison with the
        key of node and attach node, with its whole subtree, at the first empty slot. */
    method SendDownFromNode(fromNode: nat, node: nat, ghost a: Tree, ghost b: Tree)
      requires Represents(nodes, At(fromNode), a) && Represents(nodes, At(node), b)
      requires UniqueIds(a) && Ids(a) !! Ids(b)
      modifies this
      ensures Represents(nodes, At(fromNode), SendDown(a, b))
      ensures exists p :: p in Ids(a) && FillsSlot(old(nodes), nodes, p, At(node))
      ensures root == old(root) && tree == old(tree)
    {
      var cur := fromNode;
      ghost var path: seq<Frame> := [];
      ghost var t := a;
      RepresentsBound(nodes, At(fromNode), a);
      RepresentsBound(nodes, At(node), b);
      while true
        invariant nodes == old(nodes) && tree == old(tree) && root == old(root)
        invariant a == Plug(path, t) && t.Node? && t.at == cur
        invariant Represents(nodes, At(cur), t) && UniqueIds(t) && Ids(t) <= Ids(a)
        invariant SendDown(a, b) == Plug(path, SendDown(t, b))
        decreases t
      {
        var x := nodes[cur];
        if x.uuid > nodes[node].uuid {
          if x.lesser.At? {
            var f := WentLesser(cur, x.uuid, t.greater);
            PlugStep(path, f, t.lesser);
            path, cur, t := path + [f], x.lesser.index, t.lesser;
          } else {
            nodes := nodes[cur := x.(lesser := At(node))];
            assert FillsSlot(old(nodes), nodes, cur, At(node));
            RepresentsBound(old(nodes), x.greater, t.greater);
            RepresentsFrame(old(nodes), nodes, x.greater, t.greater);
            RepresentsFrame(old(nodes), nodes, At(node), b);
            PlugRepresents(old(nodes), nodes, At(fromNode), path, t, SendDown(t, b));
            return;
          }
        } else {
          if x.greater.At? {
            var f := WentGreater(t.lesser, cur, x.uuid);
            PlugStep(path, f, t.greater);
            path, cur, t := path + [f], x.greater.index, t.greater;
          } else {
            nodes := nodes[cur := x.(greater := At(node))];
            assert FillsSlot(old(nodes), nodes, cur, At(node));
            RepresentsBound(old(nodes), x.lesser, t.lesser);
            RepresentsFrame(old(nodes), nodes, x.lesser, t.lesser);
            RepresentsFrame(old(nodes), nodes, At(node), b);
            PlugRepresents(old(nodes), nodes, At(fromNode), path, t, SendDown(t, b));
            return;
          }
        }
      }
    }

    /** Points the slot that holds node — the parent's lesser or greater link, told apart
        by identity, or root when there is no parent — at replacement. */
    method Relink(parent: NodeRef, node: nat, replacement: NodeRef,
                  ghost path: seq<Frame>, ghost t: Tree, ghost s: Tree)
      requires Represents(nodes, root, Plug(path, t)) && UniqueIds(Plug(path, t))
      requires t.Node? && t.at == node && parent == Parent(path)
      requires Represents(nodes, replacement, s) && UniqueIds(s) && Ids(s) <= Ids(t) - {node}
      modifies this
      ensures Represents(nodes, root, Plug(path, s)) && UniqueIds(Plug(path, s))
      ensures parent.Nil? ==> root == replacement && nodes == old(nodes)
      ensures parent.At? ==> root == old(root) && |nodes| == |old(nodes)|
      ensures forall j :: 0 <= j < |nodes| && parent != At(j) ==> nodes[j] == old(nodes)[j]
      ensures forall j :: j in Ids(t) ==> j < |nodes| && nodes[j] == old(nodes)[j]
      ensures tree == old(tree)
    {
      PlugReplaceIds(path, t, s);
      PlugInner(nodes, root, path, t);
      RepresentsBound(nodes, At(node), t);
      if parent.At? {
        var p := parent.index;
        ParentSlotRepresents(nodes, root, path, t, replacement, s);
        if nodes[p].lesser == At(node) {
          nodes := nodes[p := nodes[p].(lesser := replacement)];
        } else {
          nodes := nodes[p := nodes[p].(greater := replacement)];
        }
      } else {
        root := replacement;
      }
    }

    /** Unlinks node, found at the end of the walk recorded in path, by its child
        configuration: both children, only lesser, only greater, none. */
    method RemoveNode(parent: NodeRef, node: nat, ghost path: seq<Frame>, ghost t: Tree)
      requires Represents(nodes, root, Plug(path, t)) && UniqueIds(Plug(path, t))
      requires Ordered(t) && t.Node? && t.at == node && parent == Parent(path)
      modifies this
      ensures Represents(nodes, root, Plug(path, RemoveRoot(t)))
      ensures |nodes| == |old(nodes)| && tree == old(tree)
    {
      PlugInner(nodes, root, path, t);
      RepresentsBound(nodes, At(node), t);
      RemoveRootFacts(t);
      var x := nodes[node];
      if x.lesser.At? && x.greater.At? {
        Relink(parent, node, x.lesser, path, t, t.lesser);
        // the lesser subtree has taken the slot; send the greater one down into it
        ghost var mid := nodes;
        PlugInner(nodes, root, path, t.lesser);
        assert Ids(t.greater) <= Ids(t);
        RepresentsFrame(old(nodes), nodes, x.greater, t.greater);
        SendDownFromNode(x.lesser.index, x.greater.index, t.lesser, t.greater);
        RepresentsBound(mid, root, Plug(path, t.lesser));
        PlugRepresents(mid, nodes, root, path, t.lesser, SendDown(t.lesser, t.greater));
        return;
      }
      if x.lesser.At? {
        Relink(parent, node, x.lesser, path, t, t.lesser);
        return;
      }
      if x.greater.At? {
        Relink(parent, node, x.greater, path, t, t.greater);
        return;
      }
      Relink(parent, node, Nil, path, t, Empty);
    }

    /** Removes uuid if it is held; the result says whether it was. The walk keeps the
        parent of the cursor, so a non-root node is unlinked from its parent's slot; the
        delete exactly as written, whose parent stays None, is DeleteDefect.DeleteAsWritten. */
    method Delete(uuid: int) returns (deleted: bool)
      requires Valid()
      modifies this
      ensures Valid()
      ensures deleted <==> uuid in old(Contents())
      ensures Contents() == old(Contents()) - {uuid}
      ensures tree == TreeDelete(old(tree), uuid)
      ensures !deleted ==> root == old(root) && nodes == old(nodes)
      ensures |nodes| == |old(nodes)|
    {
      if root.Nil? {
        return false;
      }
      var parent: NodeRef := Nil;
      var node := root;
      ghost var path: seq<Frame> := [];
      ghost var t := tree;
      while node.At?
        invariant nodes == old(nodes) && tree == old(tree) && root == old(root)
        invariant tree == Plug(path, t) && parent == Parent(path)
        invariant Represents(nodes, node, t) && Ordered(t) && UniqueIds(t)
        invariant TreeDelete(tree, uuid) == Plug(path, TreeDelete(t, uuid))
        invariant uuid in Keys(tree) <==> uuid in Keys(t)
        decreases t
      {
        var i := node.index;
        var x := nodes[i];
        SearchStep(t, uuid);
        if x.uuid == uuid {
          RemoveNode(parent, i, path, t);
          DeleteKeys(tree, uuid);
          DeleteValid(tree, uuid);
          tree := TreeDelete(tree, uuid);
          return true;
        }
        if x.uuid > uuid {
          var f := WentLesser(i, x.uuid, t.greater);
          PlugStep(path, f, t.lesser);
          path, parent, node, t := path + [f], node, x.lesser, t.lesser;
        } else {
          var f := WentGreater(t.lesser, i, x.uuid);
          PlugStep(path, f, t.greater);
          path, parent, node, t := path + [f], node, x.greater, t.greater;
        }
      }
      DeleteAbsent(tree, uuid);
      return false;
    }
  }
}

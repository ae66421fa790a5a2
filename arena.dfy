/** Proof tools for walking an arena-backed tree with a cursor: the path from the root to
    the cursor (a zipper of frames), and what stays true of the arena when one slot on
    that path is re-pointed. */
module Arena {
  import opened TreeModel

  /** One step of a walk from the root: which side was taken at which node, and the
      subtree left behind on the other side. */
  datatype Frame =
    | WentLesser(at: nat, uuid: int, greater: Tree)
    | WentGreater(lesser: Tree, at: nat, uuid: int)

  function PlugFrame(f: Frame, s: Tree): Tree
  {
    match f
    case WentLesser(i, x, g) => Node(s, i, x, g)
    case WentGreater(l, i, x) => Node(l, i, x, s)
  }

  /** The whole tree, rebuilt from the path (outermost frame first) and the subtree at the cursor. */
  function Plug(path: seq<Frame>, s: Tree): Tree
    decreases |path|
  {
    if path == [] then s else Plug(path[..|path| - 1], PlugFrame(path[|path| - 1], s))
  }

  /** The link the innermost frame's node holds: none when the cursor is at the root. */
  function Parent(path: seq<Frame>): NodeRef
  {
    if path == [] then Nil else At(path[|path| - 1].at)
  }

  lemma PlugStep(path: seq<Frame>, f: Frame, s: Tree)
    ensures Plug(path + [f], s) == Plug(path, PlugFrame(f, s))
  {
    assert (path + [f])[..|path|] == path;
  }

  lemma {:induction false} RepresentsBound(nodes: seq<UUIDNode>, r: NodeRef, t: Tree)
    requires Represents(nodes, r, t)
    ensures r == RootRef(t)
    ensures forall j :: j in Ids(t) ==> j < |nodes|
    decreases t
  {
    match t
    case Empty =>
    case Node(l, i, _, g) =>
      RepresentsBound(nodes, nodes[i].lesser, l);
      RepresentsBound(nodes, nodes[i].greater, g);
  }

  /** A tree is spelled the same by any arena that agrees on the tree's own nodes. */
  lemma {:induction false} RepresentsFrame(nodes: seq<UUIDNode>, nodes': seq<UUIDNode>, r: NodeRef, t: Tree)
    requires Represents(nodes, r, t)
    requires forall j :: j in Ids(t) ==> j < |nodes| && j < |nodes'| && nodes'[j] == nodes[j]
    ensures Represents(nodes', r, t)
    decreases t
  {
    match t
    case Empty =>
    case Node(l, i, _, g) =>
      RepresentsFrame(nodes, nodes', nodes[i].lesser, l);
      RepresentsFrame(nodes, nodes', nodes[i].greater, g);
  }

  /** What holds of the whole tree holds of the subtree at the cursor. */
  lemma {:induction false} PlugInner(nodes: seq<UUIDNode>, r: NodeRef, path: seq<Frame>, s: Tree)
    requires Represents(nodes, r, Plug(path, s))
    ensures Represents(nodes, RootRef(s), s)
    ensures Ordered(Plug(path, s)) ==> Ordered(s)
    ensures UniqueIds(Plug(path, s)) ==> UniqueIds(s)
    ensures Ids(s) <= Ids(Plug(path, s)) && Keys(s) <= Keys(Plug(path, s))
    decreases |path|
  {
    if path == [] {
      RepresentsBound(nodes, r, s);
    } else {
      var f := path[|path| - 1];
      PlugInner(nodes, r, path[..|path| - 1], PlugFrame(f, s));
      var u := PlugFrame(f, s);
      assert Represents(nodes, At(f.at), u);
      RepresentsBound(nodes, if f.WentLesser? then nodes[f.at].lesser else nodes[f.at].greater, s);
    }
  }

  /** Replacing the cursor's subtree by one with ids and keys drawn from it keeps the
      whole tree free of shared nodes. */
  lemma {:induction false} PlugReplaceIds(path: seq<Frame>, t: Tree, s: Tree)
    requires UniqueIds(Plug(path, t)) && UniqueIds(s) && Ids(s) <= Ids(t)
    ensures UniqueIds(Plug(path, s)) && Ids(Plug(path, s)) <= Ids(Plug(path, t))
    decreases |path|
  {
    if path != [] {
      var f := path[|path| - 1];
      PlugInnerIds(path[..|path| - 1], PlugFrame(f, t));
      PlugReplaceIds(path[..|path| - 1], PlugFrame(f, t), PlugFrame(f, s));
    }
  }

  lemma {:induction false} PlugInnerIds(path: seq<Frame>, s: Tree)
    requires UniqueIds(Plug(path, s))
    ensures UniqueIds(s) && Ids(s) <= Ids(Plug(path, s))
    decreases |path|
  {
    if path != [] {
      PlugInnerIds(path[..|path| - 1], PlugFrame(path[|path| - 1], s));
    }
  }

  /** Re-pointing one slot: if the subtree at the cursor is replaced by t, the link into it
      keeps its target, the new arena spells t from that link, and the new arena agrees
      with the old on every node outside the old subtree, then the new arena spells the
      whole tree with t in the cursor's place. */
  lemma {:induction false} PlugRepresents(nodes: seq<UUIDNode>, nodes': seq<UUIDNode>, r: NodeRef,
                                          path: seq<Frame>, t0: Tree, t: Tree)
    requires Represents(nodes, r, Plug(path, t0)) && UniqueIds(Plug(path, t0))
    requires RootRef(t) == RootRef(t0) && Represents(nodes', RootRef(t), t)
    requires forall j :: j in Ids(Plug(path, t0)) && j !in Ids(t0) ==>
               j < |nodes| && j < |nodes'| && nodes'[j] == nodes[j]
    ensures Represents(nodes', r, Plug(path, t))
    decreases |path|
  {
    if path == [] {
      RepresentsBound(nodes, r, t0);
    } else {
      var outer, f := path[..|path| - 1], path[|path| - 1];
      var u0, u := PlugFrame(f, t0), PlugFrame(f, t);
      PlugInner(nodes, r, outer, u0);
      PlugInnerIds(outer, u0);
      assert f.at in Ids(u0) && f.at !in Ids(t0);
      RepresentsBound(nodes, At(f.at), u0);
      match f {
        case WentLesser(i, x, g) =>
          RepresentsBound(nodes, nodes[i].greater, g);
          RepresentsFrame(nodes, nodes', nodes[i].greater, g);
        case WentGreater(l, i, x) =>
          RepresentsBound(nodes, nodes[i].lesser, l);
          RepresentsFrame(nodes, nodes', nodes[i].lesser, l);
      }
      assert Represents(nodes', At(f.at), u);
      PlugRepresents(nodes, nodes', r, outer, u0, u);
    }
  }
  /** The arena with the lesser (or greater) link of node p set to c. */
  function SetSlot(nodes: seq<UUIDNode>, p: nat, lesser: bool, c: NodeRef): seq<UUIDNode>
    requires p < |nodes|
  {
    nodes[p := if lesser then nodes[p].(lesser := c) else nodes[p].(greater := c)]
  }

  /** Re-pointing the parent slot that holds the cursor's subtree t at a link c that spells
      s, built from nodes of t, gives the whole tree with s in t's place. The slot is
      found by identity: the parent's lesser link holds t exactly when the walk went lesser. */
  lemma ParentSlotRepresents(nodes: seq<UUIDNode>, r: NodeRef, path: seq<Frame>, t: Tree, c: NodeRef, s: Tree)
    requires path != [] && t.Node?
    requires Represents(nodes, r, Plug(path, t)) && UniqueIds(Plug(path, t))
    requires Represents(nodes, c, s) && Ids(s) <= Ids(t)
    ensures path[|path| - 1].at < |nodes| && path[|path| - 1].at !in Ids(t)
    ensures nodes[path[|path| - 1].at].lesser == RootRef(t) <==> path[|path| - 1].WentLesser?
    ensures Represents(SetSlot(nodes, path[|path| - 1].at, path[|path| - 1].WentLesser?, c), r, Plug(path, s))
  {
    var outer, f := path[..|path| - 1], path[|path| - 1];
    var p := f.at;
    PlugInner(nodes, r, outer, PlugFrame(f, t));
    PlugInnerIds(outer, PlugFrame(f, t));
    RepresentsBound(nodes, r, Plug(path, t));
    RepresentsBound(nodes, c, s);
    var nodes' := SetSlot(nodes, p, f.WentLesser?, c);
    match f {
      case WentLesser(_, _, g) =>
        RepresentsBound(nodes, nodes[p].greater, g);
        RepresentsFrame(nodes, nodes', nodes[p].greater, g);
      case WentGreater(l, _, _) =>
        RepresentsBound(nodes, nodes[p].lesser, l);
        RepresentsFrame(nodes, nodes', nodes[p].lesser, l);
    }
    RepresentsFrame(nodes, nodes', c, s);
    PlugRepresents(nodes, nodes', r, outer, PlugFrame(f, t), PlugFrame(f, s));
  }
}

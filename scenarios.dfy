/** Client runs of the registry and the generator, proved from their contracts alone. */
module Scenarios {
  import opened Registry
  import opened Issuer

  /** Insert twice reports true then false; after delete the key is gone; a second
      delete reports false. */
  method RoundTrip(uuid: int) returns (first: bool, second: bool, deleted: bool, found: bool, again: bool)
    ensures first && !second && deleted && !found && !again
  {
    var t := new UUIDTree();
    first := t.Insert(uuid);
    second := t.Insert(uuid);
    deleted := t.Delete(uuid);
    found := t.Find(uuid);
    again := t.Delete(uuid);
  }

  /** Keys 50, 30, 70, 20, 40, 60, 80 inserted in that order; deleting 30, which has the
      two children 20 and 40, leaves 20, 40, 60, 70 and 80 reachable and 30 not. */
  method DeleteWithTwoChildren() returns (deleted: bool, found: seq<bool>)
    ensures deleted && found == [true, false, true, true, true, true, true]
  {
    var t := BuildSeven();
    var keys := [50, 30, 70, 20, 40, 60, 80];
    deleted := t.Delete(30);
    found := [];
    for k := 0 to |keys|
      invariant t.Valid() && t.Contents() == {50, 70, 20, 40, 60, 80}
      invariant |found| == k && forall j :: 0 <= j < k ==> found[j] == (keys[j] != 30)
    {
      var f := t.Find(keys[k]);
      found := found + [f];
    }
  }

  /** Keys 50 and 30 inserted, then the leaf 30 deleted: 50, its parent, stays. */
  method DeleteLeafKeepsParent() returns (deleted: bool, kept: bool)
    ensures deleted && kept
  {
    var t := new UUIDTree();
    var inserted := t.Insert(50);
    inserted := t.Insert(30);
    deleted := t.Delete(30);
    kept := t.Find(50);
  }

  /** A registry holding the keys 50, 30, 70, 20, 40, 60, 80, inserted in that order. */
  method BuildSeven() returns (t: UUIDTree)
    ensures fresh(t) && t.Valid() && t.Contents() == {50, 30, 70, 20, 40, 60, 80}
  {
    t := new UUIDTree();
    var inserted := t.Insert(50);
    assert t.Contents() == {50};
    inserted := t.Insert(30);
    inserted := t.Insert(70);
    assert t.Contents() == {50, 30, 70};
    inserted := t.Insert(20);
    inserted := t.Insert(40);
    assert t.Contents() == {50, 30, 70, 20, 40};
    inserted := t.Insert(60);
    inserted := t.Insert(80);
  }

  /** The loop body of the benchmark's generator test: generate twice, keeping the
      first identifier; that identifier then exists. */
  method GeneratedExists(g: UUIDGenerator, draws1: seq<int>, draws2: seq<int>)
      returns (kept: Option<int>, second: Option<int>, found: bool)
    requires g.Valid() && InRange(draws1) && InRange(draws2)
    modifies g.uuids
    ensures g.Valid()
    ensures kept.Some? ==> found
    ensures kept.Some? && second.Some? ==> kept.value != second.value
  {
    kept := g.Generate(draws1);
    second := g.Generate(draws2);
    found := false;
    if kept.Some? {
      found := g.Exists(kept.value);
    }
  }
}

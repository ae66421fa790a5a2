/** The identifier issuers: UUIDGenerator over the tree registry and UUIDGeneratorDict over
    a dictionary. The pseudo-random source is not modelled: a call receives the draws it
    would make, in order. */
module Issuer {
  import opened Registry

  /** randint(0, 2**128 - 1) draws strictly below this bound. */
  const UUID_LIMIT: int := 0x1_0000_0000_0000_0000_0000_0000_0000_0000

  datatype Option<T> = None | Some(value: T)

  /** The position of the first draw not already issued; a generator returns that draw. */
  function FirstFresh(issued: set<int>, draws: seq<int>): (r: Option<nat>)
    ensures r.Some? ==> r.value < |draws| && draws[r.value] !in issued
    ensures r.Some? ==> forall j :: 0 <= j < r.value ==> draws[j] in issued
    ensures r.None? ==> forall j :: 0 <= j < |draws| ==> draws[j] in issued
    decreases |draws|
  {
    if draws == [] then None
    else if draws[0] !in issued then Some(0)
    else match FirstFresh(issued, draws[1..])
      case None => None
      case Some(i) => Some(i + 1)
  }

  /** What a generator returns for these draws, given the identifiers already issued. */
  function Issue(issued: set<int>, draws: seq<int>): Option<int>
  {
    match FirstFresh(issued, draws)
    case None => None
    case Some(i) => Some(draws[i])
  }

  /** Every draw is in the range the random source promises. */
  predicate InRange(draws: seq<int>)
  {
    forall i :: 0 <= i < |draws| ==> 0 <= draws[i] < UUID_LIMIT
  }

  /** What a generator returns is a 128-bit value that was not issued before. */
  lemma IssueFresh(issued: set<int>, draws: seq<int>)
    requires InRange(draws)
    ensures Issue(issued, draws).Some? ==>
      0 <= Issue(issued, draws).value < UUID_LIMIT && Issue(issued, draws).value !in issued
    ensures Issue(issued, draws).None? <==> forall j :: 0 <= j < |draws| ==> draws[j] in issued
  {
  }

  class UUIDGenerator {
    const uuids: UUIDTree

    ghost predicate Valid()
      reads this, uuids
    {
      uuids.Valid()
    }

    /** The identifiers issued and not deleted. */
    ghost function Issued(): set<int>
      reads this, uuids
    {
      uuids.Contents()
    }

    constructor ()
      ensures Valid() && Issued() == {} && fresh(uuids)
    {
      uuids := new UUIDTree();
    }

    /** Tries the draws in order until the registry accepts one, and returns it. */
    method Generate(draws: seq<int>) returns (r: Option<int>)
      requires Valid() && InRange(draws)
      modifies uuids
      ensures Valid()
      ensures r == Issue(old(Issued()), draws)
      ensures r.Some? ==> 0 <= r.value < UUID_LIMIT && r.value !in old(Issued())
      ensures Issued() == if r.Some? then old(Issued()) + {r.value} else old(Issued())
    {
      var i := 0;
      while i < |draws|
        invariant 0 <= i <= |draws|
        invariant Valid() && Issued() == old(Issued())
        invariant forall j :: 0 <= j < i ==> draws[j] in old(Issued())
      {
        var uuid := draws[i];
        var inserted := uuids.Insert(uuid);
        if inserted {
          return Some(uuid);
        }
        i := i + 1;
      }
      return None;
    }

    method Exists(uuid: int) returns (found: bool)
      requires Valid()
      ensures found <==> uuid in Issued()
    {
      found := uuids.Find(uuid);
    }

    method Delete(uuid: int) returns (deleted: bool)
      requires Valid()
      modifies uuids
      ensures Valid()
      ensures deleted <==> uuid in old(Issued())
      ensures Issued() == old(Issued()) - {uuid}
    {
      deleted := uuids.Delete(uuid);
    }
  }

  class UUIDGeneratorDict {
    var uuids: map<int, bool>

    /** Every entry the dictionary holds maps to True. */
    ghost predicate Valid()
      reads this
    {
      forall u :: u in uuids ==> uuids[u]
    }

    ghost function Issued(): set<int>
      reads this
    {
      uuids.Keys
    }

    constructor ()
      ensures Valid() && Issued() == {}
    {
      uuids := map[];
    }

    /** Tries the draws in order until one is not a key yet, records it and returns it. */
    method Generate(draws: seq<int>) returns (r: Option<int>)
      requires Valid() && InRange(draws)
      modifies this
      ensures Valid()
      ensures r == Issue(old(Issued()), draws)
      ensures r.Some? ==> 0 <= r.value < UUID_LIMIT && r.value !in old(Issued())
      ensures Issued() == if r.Some? then old(Issued()) + {r.value} else old(Issued())
    {
      var i := 0;
      while i < |draws|
        invariant 0 <= i <= |draws|
        invariant uuids == old(uuids)
        invariant forall j :: 0 <= j < i ==> draws[j] in old(Issued())
      {
        var uuid := draws[i];
        if uuid !in uuids {
          uuids := uuids[uuid := true];
          return Some(uuid);
        }
        i := i + 1;
      }
      return None;
    }

    method Exists(uuid: int) returns (found: bool)
      ensures found <==> uuid in Issued()
    {
      found := uuid in uuids;
    }

    method Delete(uuid: int) returns (deleted: bool)
      requires Valid()
      modifies this
      ensures Valid()
      ensures deleted <==> uuid in old(Issued())
      ensures Issued() == old(Issued()) - {uuid}
    {
      if uuid in uuids {
        uuids := uuids - {uuid};
        return true;
      }
      return false;
    }
  }

  /** The dictionary generator is a reference for the tree one: started from the same
      issued set and given the same draws, both return the same identifier and end with
      the same issued set. */
  method GenerateAgrees(g: UUIDGenerator, d: UUIDGeneratorDict, draws: seq<int>)
      returns (fromTree: Option<int>, fromDict: Option<int>)
    requires g.Valid() && d.Valid() && InRange(draws)
    requires g.Issued() == d.Issued()
    modifies g.uuids, d
    ensures g.Valid() && d.Valid()
    ensures fromTree == fromDict && g.Issued() == d.Issued()
  {
    fromTree := g.Generate(draws);
    fromDict := d.Generate(draws);
  }
}

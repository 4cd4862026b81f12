/** The exact matcher of a data consistency group. */
module SimpleMatcher {
  import opened Samples

  /** An update: which member, and the version number it carries then. */
  datatype Update<Id> = Update(id: Id, version: nat)

  /** Version of the last update of a member. */
  function Latest<Id(==)>(log: seq<Update<Id>>, id: Id): (r: Option<nat>) {
    if log == [] then None
    else if log[|log| - 1].id == id then Some(log[|log| - 1].version)
    else Latest(log[..|log| - 1], id)
  }

  /** Largest version of all updates. */
  function Largest<Id>(log: seq<Update<Id>>): (r: nat)
    ensures forall k :: 0 <= k < |log| ==> log[k].version <= r
  {
    if log == [] then 0
    else
      var m, v := Largest(log[..|log| - 1]), log[|log| - 1].version;
      if v > m then v else m
  }

  /** The members' versions are not null and never decrease. */
  predicate Ascending<Id(==)>(log: seq<Update<Id>>, members: set<Id>) {
    log != [] ==>
      var front, last := log[..|log| - 1], log[|log| - 1];
      && Ascending(front, members)
      && last.id in members && last.version > 0
      && (Latest(front, last.id).Some? ==> Latest(front, last.id).value <= last.version)
  }

  /** Every member has been updated, and all carry the largest version seen. */
  predicate AllAtLargest<Id(==)>(log: seq<Update<Id>>, members: set<Id>) {
    forall id | id in members :: Latest(log, id) == Some(Largest(log))
  }

  lemma {:induction false} LatestIsSeen<Id>(log: seq<Update<Id>>, id: Id)
    ensures Latest(log, id).Some? ==> exists k :: 0 <= k < |log| && log[k] == Update(id, Latest(log, id).value)
  {
    if log != [] && log[|log| - 1].id != id {
      LatestIsSeen(log[..|log| - 1], id);
    } else if log != [] {
      assert log[|log| - 1] == Update(id, Latest(log, id).value);
    }
  }

  lemma {:induction false} LargestIsCarried<Id>(log: seq<Update<Id>>, members: set<Id>)
    requires log != [] && Ascending(log, members)
    ensures exists id :: id in members && Latest(log, id) == Some(Largest(log))
  {
    var front, last := log[..|log| - 1], log[|log| - 1];
    if last.version >= Largest(front) {
      assert Latest(log, last.id) == Some(Largest(log));
    } else {
      assert front != [];
      LargestIsCarried(front, members);
      var id :| id in members && Latest(front, id) == Some(Largest(front));
      assert id != last.id;
      assert Latest(log, id) == Some(Largest(log));
    }
  }

  /** If all members carry the same version, it is the largest one seen. */
  lemma {:induction false} SameIsLargest<Id>(log: seq<Update<Id>>, members: set<Id>)
    requires log != [] && Ascending(log, members)
    ensures AllAtLargest(log, members) <==> exists v :: forall id | id in members :: Latest(log, id) == Some(v)
  {
    LargestIsCarried(log, members);
  }

  /** One more update. */
  lemma {:induction false} OneMore<Id>(log: seq<Update<Id>>, u: Update<Id>, members: set<Id>)
    ensures Latest(log + [u], u.id) == Some(u.version)
    ensures forall id :: id != u.id ==> Latest(log + [u], id) == Latest(log, id)
    ensures forall id :: Latest(log, id).Some? ==> Latest(log, id).value <= Largest(log)
    ensures Largest(log + [u]) == if u.version > Largest(log) then u.version else Largest(log)
    ensures Ascending(log + [u], members) <==>
              && Ascending(log, members) && u.id in members && u.version > 0
              && (Latest(log, u.id).Some? ==> Latest(log, u.id).value <= u.version)
  {
    var log' := log + [u];
    assert log'[..|log'| - 1] == log;
    forall id | Latest(log, id).Some?
      ensures Latest(log, id).value <= Largest(log)
    {
      LatestIsSeen(log, id);
    }
  }

  lemma SubsetOfSameSize<Id>(a: set<Id>, b: set<Id>)
    requires a <= b
    ensures |a| == |b| <==> a == b
  {
    assert b == a + (b - a);
    assert |b| == |a| + |b - a|;
  }

  class Matcher<Id(==)> {
    const members: set<Id>
    var versions: map<Id, nat>       // the members' current version numbers
    var target: nat                  // _versionNumberToBeConsistentTo
    var consistent: set<Id>
    ghost var log: seq<Update<Id>>   // updates so far

    ghost predicate Valid()
      reads this
    {
      && members <= versions.Keys
      && Ascending(log, members)
      && (forall id | id in members :: Latest(log, id).Some? ==> versions[id] == Latest(log, id).value)
      && target == Largest(log)
      && consistent == set id | id in members && Latest(log, id) == Some(Largest(log))
    }

    constructor (versions: map<Id, nat>)
      ensures Valid() && members == versions.Keys && this.versions == versions && log == []
    {
      members := versions.Keys;
      this.versions := versions;
      target, consistent, log := 0, {}, [];
    }

    /** A member receives a version and update() is called for it. */
    method Receive(id: Id, version: nat) returns (r: bool)
      requires Valid() && id in members && version > 0 && (Latest(log, id).Some? ==> version >= versions[id])
      modifies this
      ensures Valid() && log == old(log) + [Update(id, version)] && versions == old(versions)[id := version]
      ensures r <==> AllAtLargest(log, members)
    {
      hide Latest, Largest, Ascending;
      OneMore(log, Update(id, version), members);
      versions := versions[id := version];
      log := log + [Update(id, version)];
      var v := versions[id];
      if v < target {
        return false;
      }
      if target != v {
        target := v;
        consistent := {};
      }
      consistent := consistent + {id};
      SubsetOfSameSize(consistent, members);
      r := |consistent| == |members|;
    }

    method IsConsistent() returns (r: bool)
      requires Valid()
      ensures r <==> AllAtLargest(log, members)
    {
      SubsetOfSameSize(consistent, members);
      r := |consistent| == |members|;
    }
  }
}

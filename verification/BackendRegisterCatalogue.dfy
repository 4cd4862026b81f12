/**
 The register catalogue of a backend: a map from names to entries, and a vector of pointers to the entries which are not
 hidden. The catalogue is meant to be the list of its registers in the order of their insertion.
 */
module BackendRegisterCatalogues {
  /** What is known about a register; D stands for everything but the name and the flag. */
  datatype Info<D> = Info(name: string, hidden: bool, data: D)

  /** The registers which are iterated, in order. */
  function Visible<D>(registers: seq<Info<D>>): (r: seq<Info<D>>)
    ensures |r| <= |registers|
  {
    if registers == [] then []
    else
      var rest := Visible(registers[..|registers| - 1]);
      var last := registers[|registers| - 1];
      if last.hidden then rest else rest + [last]
  }

  /** Position of a register, or the number of registers. */
  function Position<D>(registers: seq<Info<D>>, name: string): (k: nat)
    ensures k <= |registers|
    ensures k < |registers| ==> registers[k].name == name
    ensures forall j :: 0 <= j < k ==> registers[j].name != name
  {
    if registers == [] then 0
    else if registers[0].name == name then 0
    else
      assert forall j :: 0 <= j < |registers| - 1 ==> registers[1..][j] == registers[j + 1];
      1 + Position(registers[1..], name)
  }

  function Without<D>(registers: seq<Info<D>>, name: string): seq<Info<D>> {
    var k := Position(registers, name);
    if k < |registers| then registers[..k] + registers[k + 1..] else registers
  }

  function Replaced<D>(registers: seq<Info<D>>, info: Info<D>): seq<Info<D>> {
    var k := Position(registers, info.name);
    if k < |registers| then registers[k := info] else registers
  }

  ghost predicate DistinctNames<D>(registers: seq<Info<D>>) {
    forall i, j :: 0 <= i < j < |registers| ==> registers[i].name != registers[j].name
  }

  ghost predicate Has<D>(registers: seq<Info<D>>, name: string) {
    exists r :: r in registers && r.name == name
  }

  lemma {:induction false} VisibleConcat<D>(a: seq<Info<D>>, b: seq<Info<D>>)
    ensures Visible(a + b) == Visible(a) + Visible(b)
  {
    if b == [] {
      assert a + b == a;
    } else {
      VisibleConcat(a, b[..|b| - 1]);
      assert (a + b)[..|a + b| - 1] == a + b[..|b| - 1];
    }
  }

  /** Exactly the registers which are not hidden are visible, each of them once. */
  lemma {:induction false} VisibleExactly<D>(registers: seq<Info<D>>)
    requires DistinctNames(registers)
    ensures DistinctNames(Visible(registers))
    ensures forall k :: 0 <= k < |Visible(registers)| ==>
        Visible(registers)[k] in registers && !Visible(registers)[k].hidden
    ensures forall k :: 0 <= k < |registers| && !registers[k].hidden ==> registers[k] in Visible(registers)
  {
    if registers != [] {
      var front := registers[..|registers| - 1];
      VisibleExactly(front);
      forall k | 0 <= k < |Visible(front)|
        ensures Visible(front)[k].name != registers[|registers| - 1].name
      {
        var j :| 0 <= j < |front| && front[j] == Visible(front)[k];
      }
      forall k | 0 <= k < |registers| && !registers[k].hidden
        ensures registers[k] in Visible(registers)
      {
        if k < |front| { assert front[k] in Visible(front); }
      }
    }
  }

  /** Appending a register whose name is new. */
  lemma {:induction false} Appended<D>(registers: seq<Info<D>>, info: Info<D>)
    requires DistinctNames(registers) && !Has(registers, info.name)
    ensures DistinctNames(registers + [info])
    ensures Visible(registers + [info]) == if info.hidden then Visible(registers) else Visible(registers) + [info]
    ensures forall name :: Has(registers + [info], name) <==> Has(registers, name) || name == info.name
  {
    var r := registers + [info];
    assert r[..|r| - 1] == registers;
    assert r[|r| - 1] == info;
  }

  /** Where a register is found in the concatenation of two lists. */
  lemma {:induction false} PositionBetween<D>(a: seq<Info<D>>, x: Info<D>, b: seq<Info<D>>)
    requires !Has(a, x.name)
    ensures Position(a + [x] + b, x.name) == |a|
    ensures Without(a + [x] + b, x.name) == a + b
  {
    var s := a + [x] + b;
    assert s[|a|] == x;
    assert forall k :: 0 <= k < |a| ==> s[k] == a[k];
    assert s[..|a|] == a && s[|a| + 1..] == b;
  }

  lemma DistinctParts<D>(a: seq<Info<D>>, x: Info<D>, b: seq<Info<D>>)
    requires DistinctNames(a + [x] + b)
    ensures DistinctNames(a) && DistinctNames(a + b) && !Has(a, x.name) && !Has(a + b, x.name)
  {
    var s := a + [x] + b;
    assert forall k :: 0 <= k < |a| ==> s[k] == a[k];
    assert s[|a|] == x;
    forall k | 0 <= k < |a + b|
      ensures (a + b)[k] == s[if k < |a| then k else k + 1]
    {
    }
  }

  /** Removing a visible register removes one entry of the iteration order. */
  lemma {:induction false} VisibleWithout<D>(registers: seq<Info<D>>, name: string)
    requires DistinctNames(registers) && Has(registers, name) && !registers[Position(registers, name)].hidden
    ensures Has(Visible(registers), name)
    ensures Visible(Without(registers, name)) == Without(Visible(registers), name)
    ensures DistinctNames(Without(registers, name)) && !Has(Without(registers, name), name)
  {
    PositionFinds(registers, name);
    hide DistinctNames, Has, Without;
    var k := Position(registers, name);
    var a, b, x := registers[..k], registers[k + 1..], registers[k];
    assert registers == a + [x] + b;
    DistinctParts(a, x, b);
    PositionBetween(a, x, b);
    VisibleParts(a, x, b);
  }

  lemma {:induction false} PositionFinds<D>(registers: seq<Info<D>>, name: string)
    ensures Has(registers, name) <==> Position(registers, name) < |registers|
  {
  }

  lemma {:induction false} VisibleParts<D>(a: seq<Info<D>>, x: Info<D>, b: seq<Info<D>>)
    requires DistinctNames(a) && !Has(a, x.name) && !x.hidden
    ensures Has(Visible(a + [x] + b), x.name)
    ensures Visible(a + b) == Without(Visible(a + [x] + b), x.name)
  {
    VisibleBetween(a, x, b);
    VisibleConcat(a, b);
    VisibleHas(a, x.name);
    PositionBetween(Visible(a), x, Visible(b));
    assert Visible(a + [x] + b)[|Visible(a)|] == x;
  }

  lemma {:induction false} VisibleBetween<D>(a: seq<Info<D>>, x: Info<D>, b: seq<Info<D>>)
    ensures Visible(a + [x] + b) == Visible(a) + (if x.hidden then [] else [x]) + Visible(b)
  {
    VisibleConcat(a + [x], b);
    VisibleConcat(a, [x]);
    assert Visible([x]) == if x.hidden then [] else [x];
  }

  /** A modification which keeps the flag changes the entry in its place. */
  lemma {:induction false} VisibleReplaced<D>(registers: seq<Info<D>>, info: Info<D>)
    requires DistinctNames(registers) && Has(registers, info.name)
    ensures DistinctNames(Replaced(registers, info))
    ensures registers[Position(registers, info.name)].hidden == info.hidden ==>
              && |Visible(Replaced(registers, info))| == |Visible(registers)|
              && forall k :: 0 <= k < |Visible(registers)| ==>
                Visible(Replaced(registers, info))[k].name == Visible(registers)[k].name
    ensures registers[Position(registers, info.name)].hidden != info.hidden ==>
              |Visible(Replaced(registers, info))| != |Visible(registers)|
  {
    var k := Position(registers, info.name);
    var a, b, x := registers[..k], registers[k + 1..], registers[k];
    assert registers == a + [x] + b;
    assert Replaced(registers, info) == a + [info] + b;
    VisibleBetween(a, x, b);
    VisibleBetween(a, info, b);
  }

  lemma WithoutMembers<D>(registers: seq<Info<D>>, name: string, rest: seq<Info<D>>)
    requires DistinctNames(registers) && rest == Without(registers, name)
    ensures forall r :: r in rest <==> r in registers && r.name != name
    ensures !Has(registers, name) ==> rest == registers
  {
    var k := Position(registers, name);
    if k < |registers| {
      var a, b, x := registers[..k], registers[k + 1..], registers[k];
      assert registers == a + [x] + b;
      DistinctParts(a, x, b);
    }
  }

  lemma {:induction false} WithoutAt<D>(registers: seq<Info<D>>, name: string)
    requires Has(registers, name)
    ensures var k := Position(registers, name);
            k < |registers| && Without(registers, name) == registers[..k] + registers[k + 1..]
  {
  }

  lemma {:induction false} ReplacedMembers<D>(registers: seq<Info<D>>, info: Info<D>)
    requires DistinctNames(registers)
    ensures !Has(registers, info.name) ==> Replaced(registers, info) == registers
    ensures Has(registers, info.name) ==>
              && (forall r :: r in Replaced(registers, info) <==> (r in registers && r.name != info.name) || r == info)
              && registers[Position(registers, info.name)] in registers
              && registers[Position(registers, info.name)].name == info.name
  {
    var k := Position(registers, info.name);
    if k < |registers| {
      var a, b, x := registers[..k], registers[k + 1..], registers[k];
      assert registers == a + [x] + b;
      DistinctParts(a, x, b);
      assert Replaced(registers, info) == a + [info] + b;
    }
  }

  /** A map entry; pointers to it stay valid while it is in the map. */
  class Entry<D> {
    var info: Info<D>

    constructor (info: Info<D>)
      ensures this.info == info
    {
      this.info := info;
    }
  }

  /** A vector of pointers to the map entries of the listed registers. */
  ghost predicate PointsTo<D>(pointers: seq<Entry<D>>, entries: map<string, Entry<D>>, listed: seq<Info<D>>) {
    && |pointers| == |listed|
    && forall k :: 0 <= k < |pointers| ==> listed[k].name in entries && pointers[k] == entries[listed[k].name]
  }

  /** A new entry changes no pointer, and can be appended. */
  lemma PointsToMore<D>(pointers: seq<Entry<D>>, entries: map<string, Entry<D>>, listed: seq<Info<D>>, info: Info<D>,
                        e: Entry<D>)
    requires PointsTo(pointers, entries, listed) && info.name !in entries
    ensures PointsTo(pointers, entries[info.name := e], listed)
    ensures PointsTo(pointers + [e], entries[info.name := e], listed + [info])
  {
  }

  class BackendRegisterCatalogue<D> {
    var catalogue: map<string, Entry<D>>     // _catalogue
    var iterated: seq<Entry<D>>              // _iteratedCatalogue
    ghost var registers: seq<Info<D>>        // in the order of insertion

    /** The map holds the registers. */
    ghost predicate Stored()
      reads this, catalogue.Values
    {
      && DistinctNames(registers)
      && (forall r | r in registers :: r.name in catalogue && catalogue[r.name].info == r)
      && (forall name | name in catalogue :: catalogue[name].info.name == name && catalogue[name].info in registers)
    }

    /** The vector points to the map's entries of the visible registers, in their order. */
    ghost predicate Listed()
      reads this
    {
      PointsTo(iterated, catalogue, Visible(registers))
    }

    ghost predicate Valid()
      reads this, catalogue.Values
    {
      Stored() && Listed()
    }

    constructor ()
      ensures Valid() && registers == [] && fresh(catalogue.Values)
    {
      catalogue, iterated, registers := map[], [], [];
    }

    /** False if a register of this name exists already (logic_error). */
    method AddRegister(info: Info<D>) returns (ok: bool)
      requires Valid()
      modifies this
      ensures Valid() && fresh(catalogue.Values - old(catalogue.Values))
      ensures ok <==> !Has(old(registers), info.name)
      ensures registers == if ok then old(registers) + [info] else old(registers)
    {
      hide DistinctNames, PointsTo, Has;
      var known := HasRegister(info.name);
      if known {
        return false;
      }
      Appended(registers, info);
      Insert(info);
      ok := true;
    }

    method Insert(info: Info<D>)
      requires Valid() && info.name !in catalogue && DistinctNames(registers + [info])
      requires Visible(registers + [info]) == if info.hidden then Visible(registers) else Visible(registers) + [info]
      modifies this
      ensures Valid() && fresh(catalogue.Values - old(catalogue.Values)) && registers == old(registers) + [info]
    {
      hide Visible, DistinctNames, PointsTo;
      InsertEntry(info);
      PointsToMore(iterated, old(catalogue), Visible(old(registers)), info, catalogue[info.name]);
      if !info.hidden {
        iterated := iterated + [catalogue[info.name]];
      }
    }

    /** The map entry of a new register. */
    method InsertEntry(info: Info<D>)
      requires Stored() && info.name !in catalogue && DistinctNames(registers + [info])
      modifies this`catalogue, this`registers
      ensures Stored() && fresh(catalogue.Values - old(catalogue.Values)) && registers == old(registers) + [info]
      ensures info.name in catalogue && catalogue == old(catalogue)[info.name := catalogue[info.name]]
    {
      hide DistinctNames;
      var entry := new Entry(info);
      catalogue := catalogue[info.name := entry];
      registers := registers + [info];
      assert forall r | r in registers :: r.name in catalogue && catalogue[r.name].info == r;
    }

    lemma {:induction false} StoredHas(name: string)
      requires Stored()
      ensures Has(registers, name) <==> name in catalogue
      ensures name in catalogue ==> registers[Position(registers, name)] == catalogue[name].info
    {
    }

    method HasRegister(name: string) returns (r: bool)
      requires Valid()
      ensures r <==> Has(registers, name)
    {
      r := name in catalogue;
    }

    /** What the iterators show: the visible registers, each of them once, in the order of insertion. */
    lemma IteratesVisible()
      requires Valid()
      ensures |iterated| == |Visible(registers)|
      ensures forall k :: 0 <= k < |iterated| ==> iterated[k].info == Visible(registers)[k]
      ensures forall r :: r in registers && !r.hidden <==> r in Visible(registers)
      ensures forall i, j :: 0 <= i < j < |iterated| ==> iterated[i].info.name != iterated[j].info.name
    {
      VisibleExactly(registers);
      forall k | 0 <= k < |iterated|
        ensures iterated[k].info == Visible(registers)[k]
      {
        assert Visible(registers)[k] in registers;
      }
    }

    /** find_if over the vector. */
    method FindEntry(name: string) returns (it: nat)
      requires Valid() && Has(Visible(registers), name)
      ensures it == Position(Visible(registers), name) < |iterated|
    {
      IteratesVisible();
      ghost var visible := Visible(registers);
      it := 0;
      while iterated[it].info.name != name
        invariant it <= Position(visible, name) < |iterated|
        decreases |iterated| - it
      {
        it := it + 1;
      }
    }

    /** What is left of both containers if a visible register is removed. */
    lemma {:induction false} RemovalLeaves(name: string)
      requires Stored() && name in catalogue && !catalogue[name].info.hidden
      ensures var rest, it := Without(registers, name), Position(Visible(registers), name);
              && Has(Visible(registers), name) && it < |Visible(registers)|
              && DistinctNames(rest) && !Has(Visible(rest), name)
              && Visible(rest) == Visible(registers)[..it] + Visible(registers)[it + 1..]
    {
      StoredHas(name);
      VisibleWithout(registers, name);
      WithoutAt(Visible(registers), name);
      VisibleHas(Without(registers, name), name);
    }

    /** False if there is no such register (logic_error). Removing a hidden register is not covered. */
    method RemoveRegister(name: string) returns (ok: bool)
      requires Valid() && (name in catalogue ==> !catalogue[name].info.hidden)
      modifies this
      ensures Valid() && catalogue.Values <= old(catalogue.Values)
      ensures ok <==> Has(old(registers), name)
      ensures registers == Without(old(registers), name)
    {
      ghost var rest := Without(registers, name);
      WithoutMembers(registers, name, rest);
      StoredHas(name);
      hide Visible, Has, DistinctNames, PointsTo, Without, Position;
      var known := HasRegister(name);
      if !known {
        return false;
      }
      RemovalLeaves(name);
      var it := FindEntry(name);
      Erase(name, it, rest);
      ok := true;
    }

    /** Erases an entry from the vector and from the map. */
    method Erase(name: string, it: nat, ghost rest: seq<Info<D>>)
      requires Valid() && name in catalogue && it < |iterated|
      requires DistinctNames(rest) && (forall r :: r in rest <==> r in registers && r.name != name)
      requires Visible(rest) == Visible(registers)[..it] + Visible(registers)[it + 1..] && !Has(Visible(rest), name)
      modifies this
      ensures Valid() && registers == rest && catalogue.Values <= old(catalogue.Values)
    {
      hide Visible, DistinctNames;
      iterated := iterated[..it] + iterated[it + 1..];
      catalogue := map other | other in catalogue && other != name :: catalogue[other];
      registers := rest;
      assert forall k :: 0 <= k < |iterated| ==> Visible(rest)[k] in Visible(rest);
    }

    /** False if there is no such register (logic_error). The vector is left alone, so it is right afterwards if and
        only if the modification keeps the flag. */
    method ModifyRegister(info: Info<D>) returns (ok: bool)
      requires Valid()
      modifies this, catalogue.Values
      ensures ok <==> Has(old(registers), info.name)
      ensures registers == Replaced(old(registers), info)
      ensures Stored() && catalogue == old(catalogue) && iterated == old(iterated)
      ensures Valid() <==> !ok || info.hidden == old(catalogue[info.name].info.hidden)
    {
      hide Visible, DistinctNames, Has, Position;
      StoredHas(info.name);
      ReplacedMembers(registers, info);
      var known := HasRegister(info.name);
      if !known {
        return false;
      }
      VisibleReplaced(registers, info);
      registers := Replaced(registers, info);
      assert forall name | name in catalogue && name != info.name :: catalogue[name] != catalogue[info.name];
      catalogue[info.name].info := info;
      ok := true;
    }

    /** First loop of fillFromThis: new entries for all registers. */
    method CopyEntries(target: BackendRegisterCatalogue<D>)
      requires Valid() && target != this && target.catalogue == map[]
      modifies target`catalogue
      ensures fresh(target.catalogue.Values) && target.catalogue.Keys == catalogue.Keys
      ensures forall name | name in catalogue :: target.catalogue[name].info == catalogue[name].info
    {
      hide Visible, DistinctNames, Has;
      var todo := catalogue.Keys;
      while todo != {}
        invariant todo <= catalogue.Keys && target.catalogue.Keys == catalogue.Keys - todo
        invariant forall name | name in target.catalogue :: fresh(target.catalogue[name])
        invariant forall name | name in target.catalogue :: target.catalogue[name].info == catalogue[name].info
        decreases |todo|
      {
        var name :| name in todo;
        var entry := new Entry(catalogue[name].info);
        target.catalogue := target.catalogue[name := entry];
        todo := todo - {name};
      }
    }

    /** Second loop of fillFromThis: pointers to the new entries, in the order of the vector. */
    method CopyOrder(target: BackendRegisterCatalogue<D>)
      requires Valid() && target != this && target.catalogue.Keys == catalogue.Keys && target.iterated == []
      modifies target`iterated
      ensures |target.iterated| == |iterated|
      ensures forall j :: 0 <= j < |iterated| ==>
                iterated[j].info.name in catalogue && target.iterated[j] == target.catalogue[iterated[j].info.name]
    {
      hide Visible, DistinctNames, Has;
      var k := 0;
      while k < |iterated|
        invariant 0 <= k <= |iterated| && |target.iterated| == k
        invariant forall j :: 0 <= j < k ==>
                    iterated[j].info.name in catalogue && target.iterated[j] == target.catalogue[iterated[j].info.name]
      {
        target.iterated := target.iterated + [target.catalogue[iterated[k].info.name]];
        k := k + 1;
      }
    }

    method FillFromThis(target: BackendRegisterCatalogue<D>)
      requires Valid() && target != this && target.catalogue == map[] && target.iterated == []
      modifies target
      ensures Valid() && target.Valid() && target.registers == registers
      ensures fresh(target.catalogue.Values)
    {
      hide Visible, DistinctNames, Has;
      CopyEntries(target);
      CopyOrder(target);
      target.registers := registers;
      IteratesVisible();
    }

    /** A clone has the same registers in the same order, and no entry in common with this catalogue. */
    method Clone() returns (c: BackendRegisterCatalogue<D>)
      requires Valid()
      ensures fresh(c) && c.Valid() && c.registers == registers
      ensures c.catalogue.Values !! catalogue.Values
    {
      c := new BackendRegisterCatalogue();
      FillFromThis(c);
    }
  }

  /** What is visible is a register. */
  lemma {:induction false} VisibleHas<D>(registers: seq<Info<D>>, name: string)
    requires DistinctNames(registers)
    ensures Has(Visible(registers), name) ==> Has(registers, name)
  {
    VisibleExactly(registers);
    if Has(Visible(registers), name) {
      var r :| r in Visible(registers) && r.name == name;
      assert r in registers;
    }
  }
}

/**
 Sub-array accessors sharing one register: each reads and writes a slice of the register through a buffer shared by all
 of them. Accessors put into a transfer group share their target accessor as well. The phases of a transfer are
 modelled one call at a time; the counted mutex is held from the first pre call to the last post call.

 Registers are one-dimensional. Version 0 is the null version. A running clock stands for the global version counter.
 */
module SubArrayCache {
  import opened Samples
  import opened Splicing

  /** The accessor for the full register behind one or more sub-array accessors. */
  datatype Target<D> = Target(
    data: seq<D>,
    version: nat,
    validity: Validity,
    reading: bool,   // readTransactionInProgress
    writing: bool,   // writeTransactionInProgress
    failed: bool)    // _activeException is set

  datatype Accessor<D> = Accessor(
    target: nat,
    offset: nat,
    user: seq<D>,
    version: nat,
    validity: Validity,
    temporary: nat)  // _temporaryVersion
  {
    /** Byte b of the register belongs to the slice. */
    predicate Reaches(b: nat) {
      offset <= b < offset + |user|
    }
  }

  datatype System<D> = System(
    shared: Sample<seq<D>>,          // the buffer in the TargetSharedState
    useCount: nat,                   // of the CountedRecursiveMutex
    targets: seq<Target<D>>,
    instances: seq<nat>,             // SharedAccessors::instanceCount, per target
    accessors: seq<Accessor<D>>,
    register: seq<D>,                // the content on the device
    readable: bool,                  // of the register
    functional: bool,                // device open and without exception
    versionOnOpen: nat,
    clock: nat,                      // last version number generated
    // history variables
    movedIn: nat,                    // number of calls of sharedBufferToTarget
    movedBack: nat,                  // number of calls of targetToSharedBuffer
    sent: seq<(seq<D>, Validity)>)   // what has been written to the device

  function Max(a: nat, b: nat): nat { if a < b then b else a }

  // ----- moving buffers

  function SharedToTarget<D>(s: System<D>, t: nat): System<D>
    requires t < |s.targets|
  {
    var x := s.targets[t];
    s.(targets := s.targets[t := x.(data := s.shared.data, validity := s.shared.validity)],
       shared := s.shared.(data := x.data),
       movedIn := s.movedIn + 1)
  }

  function TargetToShared<D>(s: System<D>, t: nat): System<D>
    requires t < |s.targets|
  {
    var x := s.targets[t];
    s.(targets := s.targets[t := x.(data := s.shared.data)],
       shared := Sample(x.data, Max(s.shared.version, x.version), x.validity),
       movedBack := s.movedBack + 1)
  }

  // ----- the target's own operations

  function TargetPreRead<D>(x: Target<D>): Target<D> {
    if x.reading then x else x.(reading := true, failed := false)
  }

  /** TransferElement::postRead of the target. Without incoming data its buffer and meta data stay. */
  function TargetPostRead<D>(x: Target<D>, incoming: Option<seq<D>>, version: nat): Target<D> {
    if !x.reading then x
    else if incoming.None? then x.(reading := false)
    else x.(reading := false, data := incoming.value, version := version, validity := Ok)
  }

  /** TransferElement::read of the target, successful or not. */
  function TargetRead<D>(x: Target<D>, incoming: Option<seq<D>>, version: nat): Target<D> {
    TargetPostRead(TargetPreRead(x.(reading := false)), incoming, version).(failed := incoming.None?)
  }

  function TargetPreWrite<D>(x: Target<D>, version: nat): Target<D> {
    if x.writing then x
    else if version < x.version then x.(failed := true)
    else x.(writing := true, failed := false)
  }

  /** TransferElement::postWrite of the target: the version is only taken over if no exception is re-thrown. */
  function TargetPostWrite<D>(x: Target<D>, version: nat): Target<D> {
    x.(writing := false, version := if x.failed then x.version else version)
  }

  // ----- the phases of a sub-array accessor

  ghost predicate Indexed<D>(s: System<D>, i: nat) {
    i < |s.accessors| && s.accessors[i].target < |s.targets| == |s.instances|
  }

  function PreRead<D>(s: System<D>, i: nat): System<D>
    requires Indexed(s, i)
  {
    var t := s.accessors[i].target;
    var s1 := s.(useCount := s.useCount + 1);
    if s1.useCount != 1 then s1
    else
      var s2 := SharedToTarget(s1, t);
      s2.(targets := s2.targets[t := TargetPreRead(s2.targets[t])])
  }

  /** An accessor which has taken over its slice and the meta data. */
  function Refreshed<D>(a: Accessor<D>, shared: Sample<seq<D>>): Accessor<D>
    requires a.offset + |a.user| <= |shared.data|
  {
    a.(user := shared.data[a.offset..a.offset + |a.user|], version := Max(a.version, shared.version),
       validity := shared.validity)
  }

  /** doPostRead; `incoming` is what the transfer has received, None without new data. */
  function PostRead<D>(s: System<D>, i: nat, incoming: Option<seq<D>>): System<D>
    requires Indexed(s, i) && s.useCount > 0
    requires incoming.Some? ==> |incoming.value| == |s.shared.data|
    requires s.accessors[i].offset + |s.accessors[i].user| <= |s.shared.data|
    requires |s.targets[s.accessors[i].target].data| == |s.shared.data|
  {
    var a := s.accessors[i];
    var t := a.target;
    var first := s.useCount == s.instances[t];
    var s1 := if !first then s
              else TargetToShared(s.(targets := s.targets[t := TargetPostRead(s.targets[t], incoming, s.clock + 1)],
                                     clock := s.clock + 1), t);
    var s2 := if incoming.None? then s1
              else s1.(accessors := s1.accessors[i := Refreshed(a, s1.shared)]);
    s2.(useCount := s2.useCount - 1)
  }

  ghost predicate NeedsInitialRead<D>(s: System<D>) {
    s.readable && s.shared.version < s.versionOnOpen
  }

  /** The first part of doPreWrite: the register is read once after the device has been opened. */
  function InitialRead<D>(s: System<D>, t: nat, works: bool): (r: System<D>)
    requires t < |s.targets|
    ensures r.accessors == s.accessors && r.instances == s.instances && |r.targets| == |s.targets|
  {
    if s.readable && s.shared.version < s.versionOnOpen then
      var s1 := SharedToTarget(s, t);
      var x := TargetRead(s1.targets[t], if works then Some(s.register) else None, s.clock + 1);
      TargetToShared(s1.(targets := s1.targets[t := x], clock := s.clock + 1), t)
    else s
  }

  /** The second part of doPreWrite: this accessor's slice goes into the shared buffer. */
  function ModifySlice<D>(s: System<D>, i: nat, version: nat): System<D>
    requires Indexed(s, i) && s.accessors[i].offset + |s.accessors[i].user| <= |s.shared.data|
  {
    var a := s.accessors[i];
    s.(shared := Sample(Splice(s.shared.data, a.offset, a.user),
                        Max(version, s.shared.version),
                        if s.shared.validity == Ok || s.useCount == 1 then a.validity else s.shared.validity))
  }

  /** The third part of doPreWrite: the last accessor moves the shared buffer into the target. */
  function HandOver<D>(s: System<D>, i: nat): System<D>
    requires Indexed(s, i)
  {
    var a := s.accessors[i];
    var t := a.target;
    if s.useCount != s.instances[t] then s
    else
      var v := Max(s.shared.version, s.targets[t].version);
      var s1 := SharedToTarget(s.(accessors := s.accessors[i := a.(temporary := v)]), t);
      s1.(targets := s1.targets[t := TargetPreWrite(s1.targets[t], v)])
  }

  /** doPreWrite of a writeable accessor; the result false stands for the exception of a failed initial read. */
  function PreWrite<D>(s: System<D>, i: nat, version: nat, works: bool): (System<D>, bool)
    requires Indexed(s, i)
    requires |s.register| == |s.shared.data| == |s.targets[s.accessors[i].target].data|
    requires s.accessors[i].offset + |s.accessors[i].user| <= |s.shared.data|
  {
    var s1 := InitialRead(s.(useCount := s.useCount + 1), s.accessors[i].target, works);
    if s.readable && s.shared.version < s.versionOnOpen && !works then (s1, false)
    else (HandOver(ModifySlice(s1, i, version), i), true)
  }

  function PostWrite<D>(s: System<D>, i: nat): System<D>
    requires Indexed(s, i) && s.useCount > 0
  {
    var a := s.accessors[i];
    var t := a.target;
    var s1 := if s.useCount != s.instances[t] then s
              else TargetToShared(s.(targets := s.targets[t := TargetPostWrite(s.targets[t], a.temporary)]), t);
    s1.(useCount := s1.useCount - 1)
  }

  /** A successful write transfer of the target. */
  function SendTarget<D>(s: System<D>, t: nat): System<D>
    requires t < |s.targets|
  {
    s.(register := s.targets[t].data, sent := s.sent + [(s.targets[t].data, s.targets[t].validity)])
  }

  /** A failed write transfer: the device may hold anything. The exception reaches the target if it has been raised in a
      transfer group, otherwise it stays with the sub-array accessor. */
  function LoseTransfer<D>(s: System<D>, t: nat, left: seq<D>, seenByTarget: bool): System<D>
    requires t < |s.targets|
  {
    s.(register := left, targets := s.targets[t := s.targets[t].(failed := seenByTarget)])
  }

  // ----- whole transfers

  ghost predicate Disjoint<D>(a: Accessor<D>, b: Accessor<D>) {
    a.offset + |a.user| <= b.offset || b.offset + |b.user| <= a.offset
  }

  ghost predicate Lengths<D>(s: System<D>) {
    && |s.register| == |s.shared.data|
    && |s.targets| == |s.instances|
    && (forall t :: 0 <= t < |s.targets| ==> |s.targets[t].data| == |s.shared.data|)
    && (forall i :: 0 <= i < |s.accessors| ==>
          s.accessors[i].target < |s.targets| && s.accessors[i].offset + |s.accessors[i].user| <= |s.shared.data|)
  }

  /** The accessors of `order` are accessors of target t with pairwise disjoint slices, each listed once. */
  ghost predicate Listed<D>(s: System<D>, t: nat, order: seq<nat>) {
    && (forall k :: 0 <= k < |order| ==> order[k] < |s.accessors| && s.accessors[order[k]].target == t)
    && (forall k, l :: 0 <= k < l < |order| ==>
      order[k] != order[l] && Disjoint(s.accessors[order[k]], s.accessors[order[l]]))
  }

  /** All accessors of target t, in some order. */
  ghost predicate WholeGroup<D>(s: System<D>, t: nat, order: seq<nat>) {
    t < |s.targets| == |s.instances| && Listed(s, t, order) && |order| == s.instances[t] > 0
  }

  /** The register content base with the slices of the accessors of `order` written into it. */
  ghost function Overlay<D>(base: seq<D>, accessors: seq<Accessor<D>>, order: seq<nat>): (r: seq<D>)
    requires forall k :: 0 <= k < |order| ==>
        order[k] < |accessors| && accessors[order[k]].offset + |accessors[order[k]].user| <= |base|
    ensures |r| == |base|
  {
    if order == [] then base
    else
      var n := |order| - 1;
      assert forall k :: 0 <= k < n ==> order[..n][k] == order[k];
      var a := accessors[order[n]];
      Splice(Overlay(base, accessors, order[..n]), a.offset, a.user)
  }

  /** Faulty if and only if some listed accessor is faulty. */
  ghost function Combined<D>(accessors: seq<Accessor<D>>, order: seq<nat>): Validity
    requires forall k :: 0 <= k < |order| ==> order[k] < |accessors|
  {
    if exists k :: 0 <= k < |order| && accessors[order[k]].validity == Faulty then Faulty else Ok
  }

  /** Byte b belongs to no slice of the listed accessors. */
  ghost predicate Outside<D>(accessors: seq<Accessor<D>>, order: seq<nat>, b: nat)
    requires forall k :: 0 <= k < |order| ==> order[k] < |accessors|
  {
    forall k :: 0 <= k < |order| ==> !accessors[order[k]].Reaches(b)
  }

  /** Slices which lie inside the register. */
  ghost predicate Inside<D>(base: seq<D>, accessors: seq<Accessor<D>>, order: seq<nat>) {
    forall k :: 0 <= k < |order| ==>
      order[k] < |accessors| && accessors[order[k]].offset + |accessors[order[k]].user| <= |base|
  }

  lemma {:induction false} OverlaySnoc<D>(base: seq<D>, accessors: seq<Accessor<D>>, order: seq<nat>, b: nat)
    requires Inside(base, accessors, order) && order != [] && b < |base|
    ensures var n := |order| - 1;
            && Inside(base, accessors, order[..n])
            && Overlay(base, accessors, order)[b] ==
               if accessors[order[n]].Reaches(b) then accessors[order[n]].user[b - accessors[order[n]].offset]
               else Overlay(base, accessors, order[..n])[b]
  {
    assert forall k :: 0 <= k < |order| - 1 ==> order[..|order| - 1][k] == order[k];
  }

  /** A byte in the slice of accessor order[k]. */
  lemma {:induction false} OverlayOwner<D>(base: seq<D>, accessors: seq<Accessor<D>>, order: seq<nat>, k: nat, b: nat)
    requires Inside(base, accessors, order) && b < |base| && k < |order| && accessors[order[k]].Reaches(b)
    requires forall l :: k < l < |order| ==> !accessors[order[l]].Reaches(b)
    ensures Overlay(base, accessors, order)[b] == accessors[order[k]].user[b - accessors[order[k]].offset]
  {
    var n := |order| - 1;
    OverlaySnoc(base, accessors, order, b);
    if k < n { OverlayOwner(base, accessors, order[..n], k, b); }
  }

  /** A byte in no slice. */
  lemma {:induction false} OverlayElsewhere<D>(base: seq<D>, accessors: seq<Accessor<D>>, order: seq<nat>, b: nat)
    requires Inside(base, accessors, order) && b < |base| && Outside(accessors, order, b)
    ensures Overlay(base, accessors, order)[b] == base[b]
  {
    if order != [] {
      var n := |order| - 1;
      OverlaySnoc(base, accessors, order, b);
      assert forall k :: 0 <= k < n ==> order[..n][k] == order[k];
      OverlayElsewhere(base, accessors, order[..n], b);
    }
  }

  /** Each byte of the overlay is the owning slice's, or the base's where no slice reaches. */
  lemma {:induction false} OverlayIsUnion<D>(base: seq<D>, accessors: seq<Accessor<D>>, order: seq<nat>, b: nat)
    requires Inside(base, accessors, order)
    requires forall k, l :: 0 <= k < l < |order| ==> Disjoint(accessors[order[k]], accessors[order[l]])
    requires b < |base|
    ensures forall k :: 0 <= k < |order| && accessors[order[k]].Reaches(b) ==>
              Overlay(base, accessors, order)[b] == accessors[order[k]].user[b - accessors[order[k]].offset]
    ensures Outside(accessors, order, b) ==> Overlay(base, accessors, order)[b] == base[b]
  {
    if Outside(accessors, order, b) { OverlayElsewhere(base, accessors, order, b); }
    forall k | 0 <= k < |order| && accessors[order[k]].Reaches(b)
      ensures Overlay(base, accessors, order)[b] == accessors[order[k]].user[b - accessors[order[k]].offset]
    {
      OverlayOwner(base, accessors, order, k, b);
    }
  }

  // ----- group calls

  /** Nothing the phases do changes sizes, slices, or the grouping. */
  ghost predicate SameShape<D>(s: System<D>, s': System<D>) {
    && Lengths(s')
    && |s'.shared.data| == |s.shared.data|
    && s'.instances == s.instances
    && |s'.targets| == |s.targets|
    && s'.readable == s.readable && s'.functional == s.functional && s'.versionOnOpen == s.versionOnOpen
    && |s'.accessors| == |s.accessors|
    && forall i :: 0 <= i < |s.accessors| ==>
         && s'.accessors[i].target == s.accessors[i].target
         && s'.accessors[i].offset == s.accessors[i].offset
         && |s'.accessors[i].user| == |s.accessors[i].user|
  }

  lemma SameShapeTransitive<D>(s: System<D>, s1: System<D>, s2: System<D>)
    requires SameShape(s, s1) && SameShape(s1, s2)
    ensures SameShape(s, s2)
  {
  }

  lemma SameShapeLengths<D>(s: System<D>, s': System<D>)
    requires SameShape(s, s')
    ensures Lengths(s') && |s'.targets| == |s.targets| && |s'.accessors| == |s.accessors|
    ensures s'.versionOnOpen == s.versionOnOpen && s'.functional == s.functional && s'.readable == s.readable
  {
  }

  lemma InitialReadShape<D>(s: System<D>, t: nat, works: bool)
    requires Lengths(s) && t < |s.targets|
    ensures SameShape(s, InitialRead(s, t, works))
    ensures InitialRead(s, t, works).useCount == s.useCount && InitialRead(s, t, works).accessors == s.accessors
  {
  }

  lemma ModifySliceShape<D>(s: System<D>, i: nat, version: nat)
    requires Lengths(s) && i < |s.accessors|
    ensures SameShape(s, ModifySlice(s, i, version))
  {
  }

  lemma HandOverShape<D>(s: System<D>, i: nat)
    requires Lengths(s) && i < |s.accessors|
    ensures SameShape(s, HandOver(s, i)) && HandOver(s, i).useCount == s.useCount
  {
  }

  lemma PreWriteShape<D>(s: System<D>, i: nat, version: nat, works: bool)
    requires Lengths(s) && i < |s.accessors|
    ensures SameShape(s, PreWrite(s, i, version, works).0)
    ensures PreWrite(s, i, version, works).0.useCount == s.useCount + 1
  {
    var s0 := s.(useCount := s.useCount + 1);
    var t := s.accessors[i].target;
    CountShape(s, s0.useCount);
    hide SameShape, Lengths;
    InitialReadShape(s0, t, works);
    var s1 := InitialRead(s0, t, works);
    SameShapeLengths(s0, s1);
    ModifySliceShape(s1, i, version);
    var s2 := ModifySlice(s1, i, version);
    SameShapeLengths(s1, s2);
    HandOverShape(s2, i);
    SameShapeTransitive(s, s0, s1);
    SameShapeTransitive(s, s1, s2);
    SameShapeTransitive(s, s2, HandOver(s2, i));
  }

  lemma CountShape<D>(s: System<D>, n: nat)
    requires Lengths(s)
    ensures SameShape(s, s.(useCount := n)) && Lengths(s.(useCount := n))
  {
  }

  lemma PostReadShape<D>(s: System<D>, i: nat, incoming: Option<seq<D>>)
    requires Lengths(s) && i < |s.accessors| && s.useCount > 0
    requires incoming.Some? ==> |incoming.value| == |s.shared.data|
    ensures SameShape(s, PostRead(s, i, incoming))
    ensures PostRead(s, i, incoming).useCount == s.useCount - 1
  {
  }

  /** preWrite on the accessors of `order`, one after the other; false if some initial read has failed. */
  ghost function PreWriteAll<D>(s: System<D>, order: seq<nat>, version: nat, works: bool): (r: (System<D>, bool))
    requires Lengths(s) && forall k :: 0 <= k < |order| ==> order[k] < |s.accessors|
    ensures SameShape(s, r.0)
    ensures r.0.useCount == s.useCount + |order|
  {
    if order == [] then (s, true)
    else
      var n := |order| - 1;
      var (s1, ok1) := PreWriteAll(s, order[..n], version, works);
      PreWriteShape(s1, order[n], version, works);
      SameShapeTransitive(s, s1, PreWrite(s1, order[n], version, works).0);
      var (s2, ok2) := PreWrite(s1, order[n], version, works);
      (s2, ok1 && ok2)
  }

  /** postWrite on the accessors of `order`, one after the other. */
  ghost function PostWriteAll<D>(s: System<D>, order: seq<nat>): (s': System<D>)
    requires Lengths(s) && forall k :: 0 <= k < |order| ==> order[k] < |s.accessors|
    requires |order| <= s.useCount
    ensures SameShape(s, s')
    ensures s'.useCount == s.useCount - |order|
  {
    if order == [] then s else PostWrite(PostWriteAll(s, order[..|order| - 1]), order[|order| - 1])
  }

  ghost function PreReadAll<D>(s: System<D>, order: seq<nat>): (s': System<D>)
    requires Lengths(s) && forall k :: 0 <= k < |order| ==> order[k] < |s.accessors|
    ensures SameShape(s, s')
    ensures s'.useCount == s.useCount + |order|
  {
    if order == [] then s else PreRead(PreReadAll(s, order[..|order| - 1]), order[|order| - 1])
  }

  ghost function PostReadAll<D>(s: System<D>, order: seq<nat>, incoming: Option<seq<D>>): (s': System<D>)
    requires Lengths(s) && forall k :: 0 <= k < |order| ==> order[k] < |s.accessors|
    requires |order| <= s.useCount && (incoming.Some? ==> |incoming.value| == |s.shared.data|)
    ensures SameShape(s, s')
    ensures s'.useCount == s.useCount - |order|
  {
    if order == [] then s
    else
      var s1 := PostReadAll(s, order[..|order| - 1], incoming);
      PostReadShape(s1, order[|order| - 1], incoming);
      SameShapeTransitive(s, s1, PostRead(s1, order[|order| - 1], incoming));
      PostRead(s1, order[|order| - 1], incoming)
  }

  // ----- lock counting: closed forms of the group calls

  /** The state after preWrite on some, but not all, accessors of a target: the initial read has been made if it was
      needed, and the slices seen so far are in the shared buffer. */
  ghost function Collected<D>(s: System<D>, t: nat, order: seq<nat>, version: nat, works: bool): System<D>
    requires Lengths(s) && t < |s.targets| && Listed(s, t, order)
  {
    var b := InitialRead(s, t, works);
    if order == [] then s
    else
      b.(useCount := |order|,
         shared := Sample(Overlay(b.shared.data, s.accessors, order), Max(version, b.shared.version),
           Combined(s.accessors, order)))
  }

  lemma InitialReadDone<D>(s: System<D>, t: nat, works: bool)
    requires t < |s.targets| && s.versionOnOpen <= s.clock
    requires NeedsInitialRead(s) ==> works
    ensures !NeedsInitialRead(InitialRead(s, t, works))
  {
  }

  lemma CombinedSnoc<D>(accessors: seq<Accessor<D>>, order: seq<nat>, n: nat)
    requires |order| == n + 1 && forall k :: 0 <= k < |order| ==> order[k] < |accessors|
    ensures Combined(accessors, order) ==
            if Combined(accessors, order[..n]) == Ok then accessors[order[n]].validity else Faulty
  {
    assert forall k :: 0 <= k < n ==> order[..n][k] == order[k];
    if k :| 0 <= k < |order| && accessors[order[k]].validity == Faulty {
      if k < n { assert accessors[order[..n][k]].validity == Faulty; }
    }
    if k :| 0 <= k < n && accessors[order[..n][k]].validity == Faulty {
      assert accessors[order[k]].validity == Faulty;
    }
  }

  lemma CollectedShape<D>(s: System<D>, t: nat, order: seq<nat>, version: nat, works: bool)
    requires Lengths(s) && t < |s.targets| && Listed(s, t, order)
    ensures SameShape(s, Collected(s, t, order, version, works))
    ensures Collected(s, t, order, version, works).accessors == s.accessors
  {
    InitialReadShape(s, t, works);
  }

  /** The first preWrite makes the initial read and sets the validity. */
  lemma CollectFirst<D>(s: System<D>, t: nat, i: nat, version: nat, works: bool)
    requires Lengths(s) && t < |s.targets| && Listed(s, t, [i]) && s.useCount == 0
    requires i < |s.accessors| && s.accessors[i].target == t
    ensures |InitialRead(s.(useCount := 1), t, works).shared.data| == |s.shared.data|
    ensures ModifySlice(InitialRead(s.(useCount := 1), t, works), i, version) == Collected(s, t, [i], version, works)
  {
    assert [i][0] == i && [i][..0] == [];
    InitialReadShape(s, t, works);
    var b := InitialRead(s, t, works);
    assert Overlay(b.shared.data, s.accessors, []) == b.shared.data;
    CombinedSnoc(s.accessors, [i], 0);
  }

  /** One more preWrite: the slice joins the others. */
  lemma CollectNext<D>(s: System<D>, t: nat, order: seq<nat>, version: nat, works: bool)
    requires Lengths(s) && t < |s.targets| && Listed(s, t, order) && |order| > 1
    requires s.versionOnOpen <= s.clock
    requires NeedsInitialRead(s) ==> works
    ensures var n := |order| - 1;
            var c := Collected(s, t, order[..n], version, works);
            && !NeedsInitialRead(c) && Lengths(c) && c.accessors == s.accessors
            && ModifySlice(c.(useCount := c.useCount + 1), order[n], version) == Collected(s, t, order, version, works)
  {
    var n := |order| - 1;
    assert forall k :: 0 <= k < n ==> order[..n][k] == order[k];
    CollectedShape(s, t, order[..n], version, works);
    InitialReadDone(s, t, works);
    CombinedSnoc(s.accessors, order, n);
  }

  lemma PreWriteWithoutRead<D>(c: System<D>, i: nat, version: nat, works: bool)
    requires Lengths(c) && i < |c.accessors| && !NeedsInitialRead(c)
    ensures PreWrite(c, i, version, works) ==
        (HandOver(ModifySlice(c.(useCount := c.useCount + 1), i, version), i), true)
  {
  }

  lemma HandOverOnlyLast<D>(s: System<D>, i: nat)
    requires Indexed(s, i) && s.useCount != s.instances[s.accessors[i].target]
    ensures HandOver(s, i) == s
  {
  }

  lemma PreWriteFirst<D>(s: System<D>, t: nat, i: nat, version: nat, works: bool)
    requires Lengths(s) && t < |s.targets| && Listed(s, t, [i]) && s.useCount == 0
    requires i < |s.accessors| && s.accessors[i].target == t
    requires NeedsInitialRead(s) ==> works
    ensures PreWrite(s, i, version, works) == (HandOver(Collected(s, t, [i], version, works), i), true)
  {
    CollectFirst(s, t, i, version, works);
  }

  lemma PreWriteNext<D>(s: System<D>, t: nat, order: seq<nat>, version: nat, works: bool)
    requires Lengths(s) && t < |s.targets| && Listed(s, t, order) && |order| > 1
    requires s.versionOnOpen <= s.clock
    requires NeedsInitialRead(s) ==> works
    ensures var n := |order| - 1;
            var c := Collected(s, t, order[..n], version, works);
            && Lengths(c) && c.accessors == s.accessors && c.instances == s.instances && c.useCount == n
            && PreWrite(c, order[n], version, works) ==
              (HandOver(Collected(s, t, order, version, works), order[n]), true)
  {
    var n := |order| - 1;
    assert forall k :: 0 <= k < n ==> order[..n][k] == order[k];
    CollectNext(s, t, order, version, works);
    PreWriteWithoutRead(Collected(s, t, order[..n], version, works), order[n], version, works);
  }

  lemma {:induction false} PreWriteAllCollects<D>(s: System<D>, t: nat, order: seq<nat>, version: nat, works: bool)
    requires Lengths(s) && t < |s.targets| && Listed(s, t, order) && order != []
    requires s.useCount == 0 && s.versionOnOpen <= s.clock
    requires NeedsInitialRead(s) ==> works
    requires |order| <= s.instances[t]
    ensures Lengths(Collected(s, t, order, version, works))
        && Collected(s, t, order, version, works).accessors == s.accessors
    ensures PreWriteAll(s, order, version, works) ==
            (HandOver(Collected(s, t, order, version, works), order[|order| - 1]), true)
  {
    hide Collected, HandOver, PreWrite, InitialRead, NeedsInitialRead;
    CollectedShape(s, t, order, version, works);
    var n := |order| - 1;
    if n == 0 {
      assert order == [order[0]] && order[..0] == [];
      PreWriteFirst(s, t, order[0], version, works);
    } else {
      assert forall k :: 0 <= k < n ==> order[..n][k] == order[k];
      PreWriteAllCollects(s, t, order[..n], version, works);
      PreWriteNext(s, t, order, version, works);
      HandOverOnlyLast(Collected(s, t, order[..n], version, works), order[n - 1]);
    }
  }

  lemma PostWriteLater<D>(c: System<D>, i: nat)
    requires Indexed(c, i) && c.useCount > 0 && c.useCount != c.instances[c.accessors[i].target]
    ensures PostWrite(c, i) == c.(useCount := c.useCount - 1)
  {
  }

  lemma PostWriteFirst<D>(s: System<D>, i: nat, version: nat)
    requires Indexed(s, i) && s.useCount > 0 && s.useCount == s.instances[s.accessors[i].target]
    requires version == s.accessors[i].temporary
    ensures PostWrite(s, i) == TakenBack(s, s.accessors[i].target, version, 1)
  {
  }

  /** The state after n postWrites, the first of them by an accessor which has put this version. */
  function TakenBack<D>(s: System<D>, t: nat, version: nat, n: nat): System<D>
    requires t < |s.targets| && n <= s.useCount
  {
    var s1 := s.(targets := s.targets[t := TargetPostWrite(s.targets[t], version)]);
    TargetToShared(s1, t).(useCount := s.useCount - n)
  }

  lemma {:induction false} PostWriteAllUnfolds<D>(s: System<D>, order: seq<nat>)
    requires Lengths(s) && (forall k :: 0 <= k < |order| ==> order[k] < |s.accessors|) && 0 < |order| <= s.useCount
    ensures PostWriteAll(s, order) == PostWrite(PostWriteAll(s, order[..|order| - 1]), order[|order| - 1])
  {
  }

  /** One more postWrite. */
  lemma {:induction false} PostWriteStep<D>(s: System<D>, t: nat, order: seq<nat>, version: nat)
    requires Lengths(s) && t < |s.targets| && Listed(s, t, order) && s.useCount == s.instances[t]
        && 1 < |order| <= s.useCount
    requires PostWriteAll(s, order[..|order| - 1]) == TakenBack(s, t, version, |order| - 1)
    ensures PostWriteAll(s, order) == TakenBack(s, t, version, |order|)
  {
    PostWriteAllUnfolds(s, order);
    PostWriteLater(TakenBack(s, t, version, |order| - 1), order[|order| - 1]);
  }

  /** The first postWrite moves the buffer back, the others only count down. */
  lemma {:induction false} PostWriteAllReturns<D>(s: System<D>, t: nat, order: seq<nat>)
    requires Lengths(s) && t < |s.targets| && Listed(s, t, order)
    requires s.useCount == s.instances[t] && 0 < |order| <= s.useCount
    ensures PostWriteAll(s, order) == TakenBack(s, t, s.accessors[order[0]].temporary, |order|)
  {
    var n := |order| - 1;
    if n == 0 {
      PostWriteAllUnfolds(s, order);
      PostWriteFirst(s, order[0], s.accessors[order[0]].temporary);
    } else {
      hide TakenBack;
      assert forall k :: 0 <= k < n ==> order[..n][k] == order[k];
      PostWriteAllReturns(s, t, order[..n]);
      PostWriteStep(s, t, order, s.accessors[order[0]].temporary);
    }
  }

  // ----- whole transfers: results

  /** What holds while no transfer is running. */
  ghost predicate Idle<D>(s: System<D>) {
    && Lengths(s)
    && s.useCount == 0
    && s.versionOnOpen <= s.clock && s.shared.version <= s.clock
    && (forall t :: 0 <= t < |s.targets| ==>
          s.targets[t].version <= s.shared.version && !s.targets[t].reading && !s.targets[t].writing)
    && (forall i :: 0 <= i < |s.accessors| ==> s.accessors[i].temporary <= s.clock)
  }

  datatype Outcome<D> =
    | Sent                                        // the transfer reaches the device
    | Lost(left: seq<D>, seenByTarget: bool, reported: bool)
      // the transfer fails and leaves anything on the device; TransferElement::write reports it to the backend,
      // TransferGroup::write does not
    | ReadFails                                   // the initial read fails, on every try

  /** What the transfer does, if there is one. */
  function Transferred<D>(s: System<D>, t: nat, o: Outcome<D>): System<D>
    requires t < |s.targets|
  {
    match o
    case Sent => SendTarget(s, t)
    case Lost(left, seen, reported) => LoseTransfer(s, t, left, seen).(functional := s.functional && !reported)
    case ReadFails => s.(functional := false)
  }

  /** A write of all accessors of target t: all pre calls, the transfer, all post calls. */
  ghost function GroupWrite<D>(s: System<D>, t: nat, pre: seq<nat>, post: seq<nat>, version: nat,
                               o: Outcome<D>): System<D>
    requires Idle(s) && WholeGroup(s, t, pre) && WholeGroup(s, t, post)
    requires o.Lost? ==> |o.left| == |s.register|
  {
    var (s1, ok) := PreWriteAll(s, pre, version, !o.ReadFails?);
    PostWriteAll(Transferred(s1, t, o), post)
  }

  /** A read of all accessors of target t; `works` says whether the transfer succeeds, `alive` whether the device still
      works afterwards: a read is also without data if the transfer of another register in the group fails. */
  ghost function GroupRead<D>(s: System<D>, t: nat, pre: seq<nat>, post: seq<nat>, works: bool, alive: bool): System<D>
    requires Idle(s) && WholeGroup(s, t, pre) && WholeGroup(s, t, post)
  {
    var s1 := PreReadAll(s, pre);
    PostReadAll(s1.(functional := s1.functional && alive), post, if works then Some(s1.register) else None)
  }

  /** The register content the slices are written into: freshly read, or remembered in the shared buffer. */
  function Base<D>(s: System<D>): seq<D> {
    if s.readable && s.shared.version < s.versionOnOpen then s.register else s.shared.data
  }

  /** The version of the shared buffer before the slices are written into it. */
  ghost function BaseVersion<D>(s: System<D>): nat {
    if NeedsInitialRead(s) then s.clock + 1 else s.shared.version
  }

  lemma HandOverLast<D>(c: System<D>, t: nat, i: nat)
    requires Lengths(c) && i < |c.accessors| && c.accessors[i].target == t && c.useCount == c.instances[t]
    requires !c.targets[t].writing
    ensures var h, v := HandOver(c, i), Max(c.shared.version, c.targets[t].version);
            h == c.(accessors := c.accessors[i := c.accessors[i].(temporary := v)],
                    targets := c.targets[t := Target(c.shared.data, c.targets[t].version, c.shared.validity,
                                                     c.targets[t].reading, true, false)],
                    shared := c.shared.(data := c.targets[t].data),
                    movedIn := c.movedIn + 1)
  {
  }

  /** The initial read leaves the target's own buffer in place. */
  ghost predicate HasRead<D>(s: System<D>, t: nat, b: System<D>)
    requires t < |s.targets|
  {
    && b.shared.data == Base(s)
    && t < |b.targets| && b.targets[t].data == s.targets[t].data && !b.targets[t].writing && !b.targets[t].reading
    && b.targets == s.targets[t := b.targets[t]]
    && s.shared.version <= b.shared.version && b.targets[t].version <= b.shared.version <= b.clock
    && s.clock <= b.clock
    && b.movedIn - s.movedIn == b.movedBack - s.movedBack == (if NeedsInitialRead(s) then 1 else 0)
    && b.register == s.register && b.sent == s.sent && b.functional == s.functional
    && b.versionOnOpen == s.versionOnOpen && b.readable == s.readable && b.accessors == s.accessors
    && (s.versionOnOpen <= b.shared.version || !s.readable)
    && b.shared.version == BaseVersion(s)
  }

  lemma InitialReadResult<D>(s: System<D>, t: nat)
    requires Idle(s) && t < |s.targets|
    ensures HasRead(s, t, InitialRead(s, t, true))
  {
  }

  /** Before the transfer: the target holds the combined slices, the shared state holds the target's buffer. */
  ghost predicate HandedOver<D>(s: System<D>, t: nat, pre: seq<nat>, version: nat, h: System<D>)
    requires Idle(s) && WholeGroup(s, t, pre)
  {
    && SameShape(s, h) && h.useCount == s.instances[t]
    && h.targets == s.targets[t := h.targets[t]]
    && h.targets[t].data == Overlay(Base(s), s.accessors, pre)
    && h.targets[t].validity == Combined(s.accessors, pre)
    && h.targets[t].writing && !h.targets[t].failed && !h.targets[t].reading
    && h.targets[t].version <= h.shared.version
    && h.shared.data == s.targets[t].data
    && h.shared.version == Max(version, BaseVersion(s)) && s.shared.version <= h.shared.version
    && (version <= s.clock ==> h.shared.version <= h.clock)
    && s.clock <= h.clock
    && (s.readable ==> s.versionOnOpen <= h.shared.version)
    && h.movedIn == s.movedIn + 1 + (if NeedsInitialRead(s) then 1 else 0)
    && h.movedBack == s.movedBack + (if NeedsInitialRead(s) then 1 else 0)
    && h.register == s.register && h.sent == s.sent
    && var last := pre[|pre| - 1];
       h.accessors == s.accessors[last := s.accessors[last].(temporary := h.shared.version)]
  }

  lemma {:induction false} HandedOverLast<D>(s: System<D>, t: nat, pre: seq<nat>, version: nat, b: System<D>,
                                             c: System<D>, h: System<D>)
    requires Idle(s) && WholeGroup(s, t, pre) && HasRead(s, t, b) && Lengths(c) && SameShape(s, h)
    requires c == b.(useCount := s.instances[t],
                     shared := Sample(Overlay(Base(s), s.accessors, pre), Max(version, b.shared.version),
                       Combined(s.accessors, pre)))
    requires h == HandOver(c, pre[|pre| - 1]) && h.useCount == s.instances[t] && c.instances == s.instances
    ensures HandedOver(s, t, pre, version, h)
  {
    HandOverLast(c, t, pre[|pre| - 1]);
  }

  lemma {:induction false} PreWriteAllHandsOver<D>(s: System<D>, t: nat, pre: seq<nat>, version: nat)
    requires Idle(s) && WholeGroup(s, t, pre)
    ensures HandedOver(s, t, pre, version, PreWriteAll(s, pre, version, true).0)
  {
    var b, c := InitialRead(s, t, true), Collected(s, t, pre, version, true);
    InitialReadResult(s, t);
    CollectedShape(s, t, pre, version, true);
    PreWriteAllCollects(s, t, pre, version, true);
    HandedOverLast(s, t, pre, version, b, c, PreWriteAll(s, pre, version, true).0);
  }

  /** After the transfer: the shared state is back, the target keeps its own buffer, the mutex is free. */
  ghost predicate Returned<D>(s: System<D>, t: nat, i: nat, h: System<D>, x: System<D>, r: System<D>)
    requires t < |s.targets| && t < |h.targets| == |x.targets| && i < |h.accessors|
  {
    && SameShape(x, r) && r.useCount == 0
    && r.shared.data == h.targets[t].data && r.shared.version >= h.shared.version
      && r.shared.validity == h.targets[t].validity
    && t < |r.targets| && r.shared.version == Max(h.shared.version, r.targets[t].version)
    && r.targets[t].data == s.targets[t].data && r.targets == h.targets[t := r.targets[t]]
    && !r.targets[t].writing && !r.targets[t].reading
    && r.targets[t].version == (if x.targets[t].failed then h.targets[t].version else h.accessors[i].temporary)
    && r.register == x.register && r.sent == x.sent && r.functional == x.functional && r.clock == h.clock
    && r.accessors == h.accessors
    && r.movedIn == h.movedIn && r.movedBack == h.movedBack + 1
  }

  /** Only the device and the target's exception have changed. */
  ghost predicate OnlyTransferred<D>(t: nat, h: System<D>, x: System<D>) {
    && t < |h.targets| && |x.register| == |h.register| && |x.targets| == |h.targets|
    && x == h.(register := x.register, sent := x.sent, functional := x.functional,
               targets := h.targets[t := h.targets[t].(failed := x.targets[t].failed)])
  }

  lemma {:induction false} ReturnedAfter<D>(s: System<D>, t: nat, pre: seq<nat>, post: seq<nat>, version: nat,
                                            h: System<D>, x: System<D>)
    requires Idle(s) && WholeGroup(s, t, pre) && WholeGroup(s, t, post) && HandedOver(s, t, pre, version, h)
    requires OnlyTransferred(t, h, x)
    ensures Returned(s, t, post[0], h, x, PostWriteAll(x, post))
  {
    PostWriteAllReturns(x, t, post);
  }

  lemma TransfersOnly<D>(h: System<D>, t: nat, o: Outcome<D>)
    requires t < |h.targets| && |h.targets[t].data| == |h.register| && !o.ReadFails?
    requires o.Lost? ==> |o.left| == |h.register|
    ensures var x := Transferred(h, t, o);
            && OnlyTransferred(t, h, x)
            && (o.Sent? ==> x.register == h.targets[t].data)
              && x.functional == (h.functional && (o.Sent? || !o.reported))
  {
    assert h.targets[t := h.targets[t].(failed := h.targets[t].failed)] == h.targets;
  }

  /** Group lock counting, write: whatever the order of the pre and post calls, the shared buffer goes into the target
      once and comes back once (plus once each for the initial read), the device receives the union of all slices,
      faulty if and only if some accessor is faulty, and the mutex ends free. */
  lemma {:induction false} GroupWriteSendsUnion<D>(s: System<D>, t: nat, pre: seq<nat>, post: seq<nat>, version: nat)
    requires Idle(s) && WholeGroup(s, t, pre) && WholeGroup(s, t, post)
    ensures var r := GroupWrite(s, t, pre, post, version, Sent);
            var initial := if NeedsInitialRead(s) then 1 else 0;
            && r.register == Overlay(Base(s), s.accessors, pre)
            && r.sent == s.sent + [(r.register, Combined(s.accessors, pre))]
            && r.shared.data == r.register && r.targets[t].data == s.targets[t].data
            && r.movedIn == s.movedIn + 1 + initial && r.movedBack == s.movedBack + 1 + initial
            && r.useCount == 0
  {
    PreWriteAllHandsOver(s, t, pre, version);
    var h := PreWriteAll(s, pre, version, true).0;
    TransfersOnly(h, t, Sent);
    ReturnedAfter(s, t, pre, post, version, h, SendTarget(h, t));
  }

  // ----- reading

  lemma {:induction false} PreReadAllMoves<D>(s: System<D>, t: nat, order: seq<nat>)
    requires Lengths(s) && t < |s.targets| && Listed(s, t, order) && order != [] && s.useCount == 0
    ensures var m := SharedToTarget(s, t);
            PreReadAll(s, order) == m.(targets := m.targets[t := TargetPreRead(m.targets[t])], useCount := |order|)
  {
    var n := |order| - 1;
    if n == 0 {
      assert PreReadAll(s, order[..0]) == s;
    } else {
      assert forall k :: 0 <= k < n ==> order[..n][k] == order[k];
      PreReadAllMoves(s, t, order[..n]);
    }
  }

  /** What the accessors see after a successful read. */
  function Filled<D>(accessors: seq<Accessor<D>>, order: seq<nat>, shared: Sample<seq<D>>): seq<Accessor<D>>
    requires forall i :: 0 <= i < |accessors| ==> accessors[i].offset + |accessors[i].user| <= |shared.data|
  {
    seq(|accessors|, i requires 0 <= i < |accessors| =>
      if i in order then Refreshed(accessors[i], shared) else accessors[i])
  }

  /** The state after the first postRead, as far as shared state and target are concerned. */
  function Received<D>(s: System<D>, t: nat, incoming: Option<seq<D>>): System<D>
    requires t < |s.targets|
  {
    TargetToShared(s.(targets := s.targets[t := TargetPostRead(s.targets[t], incoming, s.clock + 1)],
      clock := s.clock + 1), t)
  }

  lemma ReceivedShape<D>(s: System<D>, t: nat, incoming: Option<seq<D>>)
    requires Lengths(s) && t < |s.targets| && (incoming.Some? ==> |incoming.value| == |s.shared.data|)
    ensures SameShape(s, Received(s, t, incoming)) && Received(s, t, incoming).accessors == s.accessors
  {
  }

  lemma FilledOne<D>(accessors: seq<Accessor<D>>, i: nat, shared: Sample<seq<D>>)
    requires forall k :: 0 <= k < |accessors| ==> accessors[k].offset + |accessors[k].user| <= |shared.data|
    requires i < |accessors|
    ensures Filled(accessors, [i], shared) == accessors[i := Refreshed(accessors[i], shared)]
  {
  }

  lemma PostReadFirst<D>(s: System<D>, t: nat, i: nat, incoming: Option<seq<D>>, r: System<D>)
    requires Lengths(s) && i < |s.accessors| && s.accessors[i].target == t && s.useCount == s.instances[t] > 0
    requires incoming.Some? ==> |incoming.value| == |s.shared.data|
    requires r == Received(s, t, incoming)
    ensures PartlyRead(s, r, [i], incoming, PostRead(s, i, incoming))
  {
    ReceivedShape(s, t, incoming);
    if incoming.Some? { FilledOne(s.accessors, i, r.shared); }
  }

  lemma FilledSnoc<D>(accessors: seq<Accessor<D>>, order: seq<nat>, i: nat, shared: Sample<seq<D>>)
    requires forall k :: 0 <= k < |accessors| ==> accessors[k].offset + |accessors[k].user| <= |shared.data|
    requires i < |accessors| && i !in order
    ensures Filled(accessors, order + [i], shared) ==
            Filled(accessors, order, shared)[i := Refreshed(accessors[i], shared)]
  {
  }

  /** The group after some of its postReads; r is the state with the shared buffer back in place. */
  ghost predicate PartlyRead<D>(s: System<D>, r: System<D>, order: seq<nat>, incoming: Option<seq<D>>, c: System<D>)
    requires Lengths(s) && |order| <= s.useCount
  {
    && SameShape(s, r) && r.accessors == s.accessors
    && c == r.(useCount := s.useCount - |order|, accessors := if incoming.None? then s.accessors
      else Filled(s.accessors, order, r.shared))
  }

  /** Not the first postRead. */
  lemma PostReadLater<D>(c: System<D>, i: nat, incoming: Option<seq<D>>)
    requires Lengths(c) && i < |c.accessors| && c.useCount > 0 && c.useCount != c.instances[c.accessors[i].target]
    requires incoming.Some? ==> |incoming.value| == |c.shared.data|
    ensures PostRead(c, i, incoming) ==
            c.(useCount := c.useCount - 1,
               accessors := if incoming.None? then c.accessors
                 else c.accessors[i := Refreshed(c.accessors[i], c.shared)])
  {
  }

  lemma PartlyReadShape<D>(s: System<D>, r: System<D>, order: seq<nat>, incoming: Option<seq<D>>, c: System<D>)
    requires Lengths(s) && |order| <= s.useCount && PartlyRead(s, r, order, incoming, c)
    ensures Lengths(c) && |c.accessors| == |s.accessors| && c.instances == s.instances && c.shared == r.shared
    ensures |c.shared.data| == |s.shared.data| && c.useCount == s.useCount - |order|
    ensures forall k :: 0 <= k < |s.accessors| ==> c.accessors[k].target == s.accessors[k].target
    ensures forall k :: 0 <= k < |s.accessors| && k !in order ==> c.accessors[k] == s.accessors[k]
  {
  }

  lemma PostReadNext<D>(s: System<D>, t: nat, r: System<D>, order: seq<nat>, i: nat, incoming: Option<seq<D>>,
                        c: System<D>)
    requires Lengths(s) && t < |s.targets| && 0 < |order| < s.useCount == s.instances[t]
    requires incoming.Some? ==> |incoming.value| == |s.shared.data|
    requires i < |s.accessors| && i !in order && s.accessors[i].target == t
    requires Lengths(c) && PartlyRead(s, r, order, incoming, c)
    ensures PartlyRead(s, r, order + [i], incoming, PostRead(c, i, incoming))
  {
    hide SameShape, Refreshed;
    PartlyReadShape(s, r, order, incoming, c);
    PostReadLater(c, i, incoming);
    if incoming.Some? { FilledSnoc(s.accessors, order, i, c.shared); }
  }

  lemma {:induction false} PostReadAllFills<D>(s: System<D>, t: nat, order: seq<nat>, incoming: Option<seq<D>>)
    requires Lengths(s) && t < |s.targets| && Listed(s, t, order)
    requires s.useCount == s.instances[t] && 0 < |order| <= s.useCount
    requires incoming.Some? ==> |incoming.value| == |s.shared.data|
    ensures PartlyRead(s, Received(s, t, incoming), order, incoming, PostReadAll(s, order, incoming))
  {
    hide Filled, PostRead;
    var n := |order| - 1;
    if n == 0 {
      assert PostReadAll(s, order[..0], incoming) == s;
      assert order == [order[0]];
      PostReadFirst(s, t, order[0], incoming, Received(s, t, incoming));
    } else {
      assert forall k :: 0 <= k < n ==> order[..n][k] == order[k];
      PostReadAllFills(s, t, order[..n], incoming);
      PostReadNext(s, t, Received(s, t, incoming), order[..n], order[n], incoming,
        PostReadAll(s, order[..n], incoming));
      assert order[..n] + [order[n]] == order;
    }
  }

  /** The result of a read: with new data the shared buffer equals the register and every accessor sees its own slice;
      without, shared state and accessors are as before. */
  ghost predicate ReadDone<D>(s: System<D>, t: nat, post: seq<nat>, works: bool, alive: bool, r: System<D>)
    requires Idle(s) && t < |s.targets|
  {
    && r.useCount == 0
    && r.movedIn == s.movedIn + 1 && r.movedBack == s.movedBack + 1
    && t < |r.targets| && r.targets == s.targets[t := r.targets[t]] && r.targets[t].data == s.targets[t].data
    && r.targets[t].version <= r.shared.version && !r.targets[t].reading && !r.targets[t].writing
    && r.register == s.register && r.sent == s.sent && r.clock == s.clock + 1
    && r.functional == (s.functional && alive)
    && (works ==> r.shared == Sample(s.register, s.clock + 1, Ok) && r.accessors == Filled(s.accessors, post, r.shared))
    && (!works ==> r.shared == s.shared && r.accessors == s.accessors)
  }

  /** All preReads of a group of n accessors, and the outcome of the transfer. */
  ghost function Moved<D>(s: System<D>, t: nat, n: nat, works: bool, alive: bool): System<D>
    requires t < |s.targets|
  {
    var m := SharedToTarget(s, t);
    m.(targets := m.targets[t := TargetPreRead(m.targets[t])], useCount := n, functional := s.functional && alive)
  }

  /** The state after the transfer with the shared buffer back in place. */
  ghost predicate BackInPlace<D>(s: System<D>, t: nat, n: nat, works: bool, alive: bool, m: System<D>, r: System<D>)
    requires Idle(s) && t < |s.targets|
  {
    && Lengths(m) && SameShape(s.(functional := m.functional), m) && m.useCount == n
      && m.functional == (s.functional && alive)
    && m.accessors == s.accessors
    && r.movedIn == s.movedIn + 1 && r.movedBack == s.movedBack + 1
    && t < |r.targets| && r.targets == s.targets[t := r.targets[t]] && r.targets[t].data == s.targets[t].data
    && r.targets[t].version <= r.shared.version && !r.targets[t].reading && !r.targets[t].writing
    && r.register == s.register && r.sent == s.sent && r.clock == s.clock + 1 && r.functional == m.functional
    && r.shared == (if works then Sample(s.register, s.clock + 1, Ok) else s.shared)
    && r.accessors == s.accessors
  }

  lemma ReceivedAfterMove<D>(s: System<D>, t: nat, n: nat, works: bool, alive: bool)
    requires Idle(s) && t < |s.targets|
    ensures var m := Moved(s, t, n, works, alive);
            BackInPlace(s, t, n, works, alive, m, Received(m, t, if works then Some(s.register) else None))
  {
  }

  lemma {:induction false} GroupReadUnfolds<D>(s: System<D>, t: nat, pre: seq<nat>, post: seq<nat>, works: bool,
                                               alive: bool)
    requires Idle(s) && WholeGroup(s, t, pre) && WholeGroup(s, t, post)
    ensures Lengths(Moved(s, t, s.instances[t], works, alive))
    ensures GroupRead(s, t, pre, post, works, alive) ==
            PostReadAll(Moved(s, t, s.instances[t], works, alive), post, if works then Some(s.register) else None)
  {
    PreReadAllMoves(s, t, pre);
    ReceivedAfterMove(s, t, s.instances[t], works, alive);
  }

  lemma PartlyReadIsDone<D>(s: System<D>, t: nat, post: seq<nat>, works: bool, alive: bool, m: System<D>, r: System<D>,
                            c: System<D>)
    requires Idle(s) && t < |s.targets| && |post| == s.instances[t]
    requires BackInPlace(s, t, s.instances[t], works, alive, m, r)
    requires PartlyRead(m, r, post, if works then Some(s.register) else None, c)
    ensures ReadDone(s, t, post, works, alive, c)
  {
  }

  lemma FilledShape<D>(accessors: seq<Accessor<D>>, order: seq<nat>, shared: Sample<seq<D>>)
    requires forall i :: 0 <= i < |accessors| ==> accessors[i].offset + |accessors[i].user| <= |shared.data|
    ensures var r := Filled(accessors, order, shared);
            |r| == |accessors| &&
            forall i :: 0 <= i < |accessors| ==>
              r[i].target == accessors[i].target && r[i].offset == accessors[i].offset
                && |r[i].user| == |accessors[i].user|
  {
  }

  lemma PartlyReadKeepsShape<D>(s: System<D>, r: System<D>, order: seq<nat>, incoming: Option<seq<D>>, c: System<D>)
    requires Lengths(s) && |order| <= s.useCount && PartlyRead(s, r, order, incoming, c)
    ensures SameShape(s, c)
  {
    FilledShape(s.accessors, order, r.shared);
    AccessorsShape(s, r, c.accessors, c.useCount);
  }

  /** Changed accessors with the same slices. */
  lemma AccessorsShape<D>(s: System<D>, r: System<D>, accessors: seq<Accessor<D>>, n: nat)
    requires Lengths(s) && SameShape(s, r) && |accessors| == |s.accessors|
    requires forall i :: 0 <= i < |accessors| ==>
               && accessors[i].target == s.accessors[i].target && accessors[i].offset == s.accessors[i].offset
               && |accessors[i].user| == |s.accessors[i].user|
    ensures SameShape(s, r.(useCount := n, accessors := accessors))
  {
  }

  lemma BackInPlaceShape<D>(s: System<D>, t: nat, post: seq<nat>, works: bool, alive: bool, m: System<D>, r: System<D>,
                            c: System<D>)
    requires Idle(s) && t < |s.targets| && |post| == s.instances[t]
    requires BackInPlace(s, t, s.instances[t], works, alive, m, r)
    requires PartlyRead(m, r, post, if works then Some(s.register) else None, c)
    ensures SameShape(s.(functional := s.functional && alive), c)
  {
    var c0 := s.(functional := s.functional && alive);
    PartlyReadKeepsShape(m, r, post, if works then Some(s.register) else None, c);
    SameShapeTransitive(c0, m, c);
  }

  lemma ReadGoesThere<D>(s: System<D>, t: nat, pre: seq<nat>, post: seq<nat>, works: bool, alive: bool)
    requires Idle(s) && WholeGroup(s, t, pre) && WholeGroup(s, t, post)
    ensures var m, incoming := Moved(s, t, s.instances[t], works, alive), if works then Some(s.register) else None;
            var r := Received(m, t, incoming);
            && BackInPlace(s, t, s.instances[t], works, alive, m, r)
            && PartlyRead(m, r, post, incoming, GroupRead(s, t, pre, post, works, alive))
  {
    var m, incoming := Moved(s, t, s.instances[t], works, alive), if works then Some(s.register) else None;
    GroupReadUnfolds(s, t, pre, post, works, alive);
    ReceivedAfterMove(s, t, s.instances[t], works, alive);
    PostReadAllFills(m, t, post, incoming);
  }

  /** Accessor a' is a after a read: byte by byte its own part of what has been received, with its validity, and under
      its version unless the accessor's own one is newer. */
  ghost predicate ShowsSlice<D>(a: Accessor<D>, a': Accessor<D>, received: Sample<seq<D>>)
    requires a.offset + |a.user| <= |received.data|
  {
    && a'.target == a.target && a'.offset == a.offset && a'.temporary == a.temporary
    && |a'.user| == |a.user|
    && (forall b :: 0 <= b < |a.user| ==> a'.user[b] == received.data[a.offset + b])
    && a'.version == (if a.version < received.version then received.version else a.version)
    && a'.validity == received.validity
  }

  lemma RefreshedShowsSlice<D>(a: Accessor<D>, shared: Sample<seq<D>>)
    requires a.offset + |a.user| <= |shared.data|
    ensures ShowsSlice(a, Refreshed(a, shared), shared)
  {
  }

  lemma ReadDoneShows<D>(s: System<D>, t: nat, post: seq<nat>, alive: bool, r: System<D>)
    requires Idle(s) && t < |s.targets| && ReadDone(s, t, post, true, alive, r)
    ensures |r.accessors| == |s.accessors|
    ensures forall i :: 0 <= i < |s.accessors| ==>
              if i in post then ShowsSlice(s.accessors[i], r.accessors[i], Sample(s.register, s.clock + 1, Ok))
              else r.accessors[i] == s.accessors[i]
  {
    hide Refreshed, ShowsSlice;
    forall i | 0 <= i < |s.accessors|
      ensures if i in post then ShowsSlice(s.accessors[i], r.accessors[i], Sample(s.register, s.clock + 1, Ok))
              else r.accessors[i] == s.accessors[i]
    {
      if i in post { RefreshedShowsSlice(s.accessors[i], r.shared); }
    }
  }

  /** Group lock counting, read: whatever the order of the pre and post calls, the shared buffer goes into the target
      once and comes back once, and the mutex ends free. After a successful read each accessor of the group shows its
      own part of the register, and no other accessor has changed. */
  lemma GroupReadFillsSlices<D>(s: System<D>, t: nat, pre: seq<nat>, post: seq<nat>, works: bool, alive: bool)
    requires Idle(s) && WholeGroup(s, t, pre) && WholeGroup(s, t, post)
    ensures SameShape(s.(functional := s.functional && alive), GroupRead(s, t, pre, post, works, alive))
    ensures ReadDone(s, t, post, works, alive, GroupRead(s, t, pre, post, works, alive))
    ensures works ==>
              var r := GroupRead(s, t, pre, post, works, alive);
              && |r.accessors| == |s.accessors|
              && forall i :: 0 <= i < |s.accessors| ==>
                   if i in post then ShowsSlice(s.accessors[i], r.accessors[i], Sample(s.register, s.clock + 1, Ok))
                   else r.accessors[i] == s.accessors[i]
  {
    var m, incoming := Moved(s, t, s.instances[t], works, alive), if works then Some(s.register) else None;
    var r, c := Received(m, t, incoming), GroupRead(s, t, pre, post, works, alive);
    ReadGoesThere(s, t, pre, post, works, alive);
    hide BackInPlace, PartlyRead, SameShape, ReadDone, ShowsSlice;
    PartlyReadIsDone(s, t, post, works, alive, m, r, c);
    BackInPlaceShape(s, t, post, works, alive, m, r, c);
    if works { ReadDoneShows(s, t, post, alive, c); }
  }

  lemma ReadDoneIdle<D>(s: System<D>, t: nat, post: seq<nat>, works: bool, alive: bool, r: System<D>)
    requires Idle(s) && t < |s.targets| && ReadDone(s, t, post, works, alive, r)
    requires SameShape(s.(functional := s.functional && alive), r)
    ensures Idle(r)
  {
  }
}

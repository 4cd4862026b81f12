/**
 SubArrayAccessorDecorator, CountedRecursiveMutex and the open/exception state of a backend as objects. The phases are
 tied to the functions of the same name in module SubArrayCache.
 */
module SubArrayObject {
  import opened Samples
  import opened Splicing
  import opened C = SubArrayCache
  import opened R = SubArrayRuns
  import opened SubArrayAccess

  /** A recursive mutex which counts how often its owner has locked it. */
  class CountedRecursiveMutex {
    var owner: Option<nat>   // the thread holding the std::recursive_mutex
    var useCount: nat

    ghost predicate Valid()
      reads this
    {
      owner.None? <==> useCount == 0
    }

    constructor ()
      ensures Valid() && owner.None?
    {
      owner, useCount := None, 0;
    }

    /** lock() of a thread which does not have to wait. */
    method Lock(thread: nat)
      requires Valid() && (owner.None? || owner == Some(thread))
      modifies this
      ensures Valid() && owner == Some(thread) && useCount == old(useCount) + 1
    {
      owner := Some(thread);
      useCount := useCount + 1;
    }

    method TryLock(thread: nat) returns (ok: bool)
      requires Valid()
      modifies this
      ensures Valid() && ok == (old(owner).None? || old(owner) == Some(thread))
      ensures ok ==> owner == Some(thread) && useCount == old(useCount) + 1
      ensures !ok ==> owner == old(owner) && useCount == old(useCount)
    {
      ok := owner.None? || owner == Some(thread);
      if ok { Lock(thread); }
    }

    /** The mutex becomes free with as many unlocks as there have been locks. */
    method Unlock(thread: nat)
      requires Valid() && owner == Some(thread)
      modifies this
      ensures Valid() && useCount == old(useCount) - 1
      ensures owner == if useCount == 0 then None else old(owner)
    {
      useCount := useCount - 1;
      if useCount == 0 { owner := None; }
    }
  }

  /** The accessors of one register of one backend, with everything they share. */
  class SharedRegister<D> {
    const mutex: CountedRecursiveMutex
    const readable: bool
    const instances: seq<nat>
    // the shared buffer
    var value: seq<D>
    var version: nat
    var validity: Validity
    var targets: seq<Target<D>>
    var accessors: seq<Accessor<D>>
    // the device and its backend
    var register: seq<D>
    var isOpen: bool
    var hasActiveException: bool
    var activeExceptionMessage: string
    var versionOnOpen: nat
    var clock: nat
    ghost var movedIn: nat
    ghost var movedBack: nat
    ghost var sent: seq<(seq<D>, Validity)>

    ghost function State(): System<D>
      reads this, mutex
    {
      System(Sample(value, version, validity), mutex.useCount, targets, instances, accessors, register, readable,
             isOpen && !hasActiveException, versionOnOpen, clock, movedIn, movedBack, sent)
    }

    ghost predicate Valid()
      reads this, mutex
    {
      mutex.Valid() && Lengths(State())
    }

    constructor (readable: bool, instances: seq<nat>, accessors: seq<Accessor<D>>, register: seq<D>, blank: seq<D>)
      requires |blank| == |register|
      requires forall i :: 0 <= i < |accessors| ==>
                 accessors[i].target < |instances| && accessors[i].offset + |accessors[i].user| <= |register|
      requires forall i :: 0 <= i < |accessors| ==> accessors[i].temporary == 0
      ensures Valid() && Initial(State()) && State().accessors == accessors
    {
      mutex := new CountedRecursiveMutex();
      this.readable, this.instances, this.accessors, this.register := readable, instances, accessors, register;
      value, version, validity := blank, 0, Ok;
      targets := seq(|instances|, _ => Target(blank, 0, Ok, false, false, false));
      isOpen, hasActiveException, activeExceptionMessage, versionOnOpen, clock := false, false, "", 0, 0;
      movedIn, movedBack, sent := 0, 0, [];
    }

    // ----- DeviceBackendImpl

    method NextVersion() returns (v: nat)
      modifies this`clock
      ensures v == clock == old(clock) + 1
    {
      clock := clock + 1;
      v := clock;
    }

    /** setOpenedAndClearException; the content of the device may have changed. */
    method SetOpenedAndClearException(content: seq<D>)
      requires Inv(State()) && |content| == |register|
      modifies this`register, this`isOpen, this`hasActiveException, this`activeExceptionMessage, this`versionOnOpen,
          this`clock
      ensures State() == Step(old(State()), Open(content)) && Inv(State())
      ensures isOpen && !hasActiveException && activeExceptionMessage == "(exception cleared)"
      ensures register == content && old(clock) < versionOnOpen <= clock && version < versionOnOpen
      ensures accessors == old(accessors) && value == old(value) && version == old(version)
    {
      StepKeepsInv(State(), Open(content));
      register := content;
      versionOnOpen := NextVersion();
      isOpen, hasActiveException := true, false;
      activeExceptionMessage := "(exception cleared)";
    }

    /** setException: only the first report is kept. */
    method SetException(message: string)
      requires Inv(State())
      modifies this`hasActiveException, this`activeExceptionMessage
      ensures State() == Step(old(State()), Break) && Inv(State()) && hasActiveException
      ensures activeExceptionMessage == if old(hasActiveException) then old(activeExceptionMessage) else message
    {
      var hadExceptionBefore := hasActiveException;
      hasActiveException := true;
      if hadExceptionBefore {
        return;
      }
      activeExceptionMessage := message;
    }

    // ----- moving buffers

    method SharedBufferToTarget(t: nat)
      requires t < |targets|
      modifies this`value, this`targets, this`movedIn
      ensures State() == C.SharedToTarget(old(State()), t)
    {
      var x := targets[t];
      value, targets := x.data, targets[t := x.(data := value, validity := validity)];
      movedIn := movedIn + 1;
    }

    method TargetToSharedBuffer(t: nat)
      requires t < |targets|
      modifies this`value, this`version, this`validity, this`targets, this`movedBack
      ensures State() == C.TargetToShared(old(State()), t)
    {
      var x := targets[t];
      value, targets := x.data, targets[t := x.(data := value)];
      version := if version < x.version then x.version else version;
      validity := x.validity;
      movedBack := movedBack + 1;
    }

    // ----- reading

    method DoPreRead(i: nat, thread: nat)
      requires Valid() && i < |accessors| && (mutex.owner.None? || mutex.owner == Some(thread))
      modifies mutex, this`value, this`targets, this`movedIn
      ensures mutex.Valid() && mutex.owner == Some(thread)
      ensures State() == C.PreRead(old(State()), i)
    {
      mutex.Lock(thread);
      if mutex.useCount == 1 {
        var t := accessors[i].target;
        SharedBufferToTarget(t);
        targets := targets[t := TargetPreRead(targets[t])];
      }
    }

    /** The loop which fills the user buffer from the accessor's part of the shared buffer. */
    method ReadSlice(a: Accessor<D>) returns (user: seq<D>)
      requires a.offset + |a.user| <= |value|
      ensures user == value[a.offset..a.offset + |a.user|]
    {
      user := a.user;
      var k := 0;
      while k < |user|
        invariant 0 <= k <= |user| == |a.user|
        invariant user == value[a.offset..a.offset + k] + a.user[k..]
      {
        user := user[k := value[k + a.offset]];
        k := k + 1;
      }
    }

    method FinishTargetRead(t: nat, incoming: Option<seq<D>>)
      requires t < |targets|
      modifies this`value, this`version, this`validity, this`targets, this`clock, this`movedBack
      ensures State() == Received(old(State()), t, incoming)
    {
      var v := NextVersion();
      targets := targets[t := TargetPostRead(targets[t], incoming, v)];
      TargetToSharedBuffer(t);
    }

    method DoPostRead(i: nat, incoming: Option<seq<D>>, thread: nat)
      requires Valid() && i < |accessors| && mutex.owner == Some(thread)
      requires incoming.Some? ==> |incoming.value| == |value|
      modifies mutex, this`value, this`version, this`validity, this`targets, this`accessors, this`clock, this`movedBack
      ensures mutex.Valid()
      ensures State() == C.PostRead(old(State()), i, incoming)
      ensures |accessors| == |old(accessors)| && accessors == old(accessors)[i := accessors[i]]
      ensures if incoming.None? then accessors[i] == old(accessors)[i]
              else |value| == |old(value)| && ShowsSlice(old(accessors)[i], accessors[i], State().shared)
    {
      var a := accessors[i];
      ReceivedShape(State(), a.target, incoming);
      if mutex.useCount == instances[a.target] {
        FinishTargetRead(a.target, incoming);
      }
      if incoming.Some? { TakeOverSlice(i); }
      mutex.Unlock(thread);
    }

    /** The user buffer is filled from the accessor's part of the shared buffer, and the meta data is taken over. */
    method TakeOverSlice(i: nat)
      requires i < |accessors| && accessors[i].offset + |accessors[i].user| <= |value|
      modifies this`accessors
      ensures accessors == old(accessors)[i := Refreshed(old(accessors)[i], Sample(value, version, validity))]
      ensures ShowsSlice(old(accessors)[i], accessors[i], Sample(value, version, validity))
    {
      var a := accessors[i];
      var user := ReadSlice(a);
      accessors := accessors[i :=
        a.(user := user, version := if a.version < version then version else a.version, validity := validity)];
    }

    // ----- writing

    /** The register is read once after the device has been opened; false stands for an exception. */
    method ReadOnce(t: nat, works: bool) returns (ok: bool)
      requires t < |targets|
      modifies this`value, this`version, this`validity, this`targets, this`clock, this`movedIn, this`movedBack
      ensures State() == InitialRead(old(State()), t, works)
      ensures ok == !(readable && old(version < versionOnOpen) && !works)
    {
      ok := true;
      if readable && version < versionOnOpen {
        SharedBufferToTarget(t);
        var v := NextVersion();
        ok := works;
        targets := targets[t := TargetRead(targets[t], if works then Some(register) else None, v)];
        TargetToSharedBuffer(t);
      }
    }

    method WriteSlice(i: nat, versionNumber: nat)
      requires i < |accessors| && accessors[i].offset + |accessors[i].user| <= |value|
      requires accessors[i].target < |targets| == |instances|
      modifies this`value, this`version, this`validity
      ensures State() == ModifySlice(old(State()), i, versionNumber)
    {
      CopySlice(i);
      version := if versionNumber < version then version else versionNumber;
      if validity == Ok || mutex.useCount == 1 {
        validity := accessors[i].validity;
      }
    }

    method HandOverIfLast(i: nat)
      requires i < |accessors| && accessors[i].target < |targets| == |instances|
      modifies this`value, this`targets, this`accessors, this`movedIn
      ensures State() == HandOver(old(State()), i)
    {
      var a := accessors[i];
      var t := a.target;
      if mutex.useCount == instances[t] {
        var v := if version < targets[t].version then targets[t].version else version;
        accessors := accessors[i := a.(temporary := v)];
        SharedBufferToTarget(t);
        targets := targets[t := TargetPreWrite(targets[t], v)];
      }
    }

    /** doPreWrite of a writeable accessor; false stands for the exception of a failed initial read. */
    method DoPreWrite(i: nat, versionNumber: nat, works: bool, thread: nat) returns (ok: bool)
      requires Valid() && i < |accessors| && (mutex.owner.None? || mutex.owner == Some(thread))
      modifies mutex, this`value, this`version, this`validity, this`targets, this`accessors, this`clock, this`movedIn,
          this`movedBack
      ensures mutex.Valid() && mutex.owner == Some(thread)
      ensures (State(), ok) == C.PreWrite(old(State()), i, versionNumber, works)
    {
      hide C.InitialRead, C.ModifySlice, C.HandOver;
      ghost var s0 := State().(useCount := mutex.useCount + 1);
      mutex.Lock(thread);
      var t := accessors[i].target;
      InitialReadShape(s0, t, works);
      ok := ReadOnce(t, works);
      if !ok {
        return;
      }
      WriteSlice(i, versionNumber);
      HandOverIfLast(i);
    }

    /** The loop which writes the user buffer into the accessor's part of the shared buffer. */
    method CopySlice(i: nat)
      requires i < |accessors| && accessors[i].offset + |accessors[i].user| <= |value|
      modifies this`value
      ensures value == Splice(old(value), accessors[i].offset, accessors[i].user)
    {
      var a := accessors[i];
      var k := 0;
      while k < |a.user|
        invariant 0 <= k <= |a.user|
        invariant |value| == |old(value)|
        invariant value == Splice(old(value), a.offset, a.user[..k])
      {
        value := value[k + a.offset := a.user[k]];
        k := k + 1;
      }
      assert a.user[..k] == a.user;
    }

    method DoPostWrite(i: nat, thread: nat)
      requires Valid() && i < |accessors| && mutex.owner == Some(thread)
      modifies mutex, this`value, this`version, this`validity, this`targets, this`movedBack
      ensures mutex.Valid()
      ensures State() == C.PostWrite(old(State()), i)
    {
      var a := accessors[i];
      var t := a.target;
      if mutex.useCount == instances[t] {
        targets := targets[t := TargetPostWrite(targets[t], a.temporary)];
        TargetToSharedBuffer(t);
      }
      mutex.Unlock(thread);
    }

    /** A complete write through one accessor which does not share its target: read-remember-modify-write, unless the
        version number is older than the last one. */
    method WriteAlone(i: nat, versionNumber: nat, thread: nat) returns (ok: bool)
      requires Inv(State()) && mutex.Valid() && i < |accessors| && accessors[i].target < |instances|
      requires instances[accessors[i].target] == 1
      requires isOpen && !hasActiveException && versionNumber <= clock
      modifies mutex, this
      ensures Inv(State()) && mutex.Valid() && mutex.owner.None? && |accessors| == |old(accessors)|
      ensures ok == (old(accessors)[i].version <= versionNumber)
      ensures !ok ==> State() == old(State())
      ensures var a := old(accessors)[i].(version := versionNumber, temporary := accessors[i].temporary);
              ok ==> accessors == old(accessors)[i := a]
      ensures isOpen && !hasActiveException && versionOnOpen == old(versionOnOpen)
      ensures ok && (readable || old(versionOnOpen <= version)) ==>
                register == Splice(old(register), old(accessors)[i].offset, old(accessors)[i].user)
    {
      if versionNumber < accessors[i].version {
        return false;
      }
      Transfer(i, versionNumber, thread);
      VersionsDoNotMatter(State(), accessors[i := accessors[i].(version := versionNumber)]);
      accessors := accessors[i := accessors[i].(version := versionNumber)];
      ok := true;
    }

    /** The write of an accessor which has accepted the version. */
    method Transfer(i: nat, versionNumber: nat, thread: nat)
      requires Inv(State()) && mutex.Valid() && i < |accessors| && accessors[i].target < |instances|
      requires instances[accessors[i].target] == 1
      requires isOpen && !hasActiveException && versionNumber <= clock && accessors[i].version <= versionNumber
      modifies mutex, this
      ensures Inv(State()) && mutex.Valid() && mutex.owner.None? && |accessors| == |old(accessors)|
      ensures accessors == old(accessors)[i := old(accessors)[i].(temporary := accessors[i].temporary)]
      ensures isOpen && !hasActiveException && versionOnOpen == old(versionOnOpen)
      ensures readable || old(versionOnOpen <= version) ==>
                register == Splice(old(register), old(accessors)[i].offset, old(accessors)[i].user)
    {
      ghost var s := State();
      var t := accessors[i].target;
      SingleWrite(s, i, versionNumber);
      PreWriteOnlyTemporary(s, i, versionNumber, true);
      var _ := DoPreWrite(i, versionNumber, true, thread);
      register := targets[t].data;
      sent := sent + [(register, targets[t].validity)];
      DoPostWrite(i, thread);
    }

    // ----- the loops of TransferGroup::write, for the members sharing one target

    /** TransferElement::preWrite of one accessor. */
    method PreWriteMember(i: nat, versionNumber: nat, works: bool, thread: nat) returns (accepts: bool, ok: bool)
      requires Valid() && (mutex.owner.None? || mutex.owner == Some(thread)) && i < |accessors|
      modifies mutex, this`value, this`version, this`validity, this`targets, this`accessors, this`clock, this`movedIn,
               this`movedBack
      ensures Valid() && (mutex.owner.None? || mutex.owner == Some(thread)) && |accessors| == |old(accessors)|
      ensures accepts == (old(accessors)[i].version <= versionNumber)
      ensures (State(), ok) == if accepts then C.PreWrite(old(State()), i, versionNumber, works)
          else (old(State()), true)
    {
      if versionNumber < accessors[i].version {
        return false, true;
      }
      PreWriteShape(State(), i, versionNumber, works);
      ok := DoPreWrite(i, versionNumber, works, thread);
      accepts := true;
    }

    /** preWrite has been called for the first k members; the state has been s before. */
    ghost predicate Preparing(s: System<D>, order: seq<nat>, k: nat, version: nat, works: bool, thread: nat,
                              writing: seq<nat>, ok: bool)
      reads this, mutex
    {
      && Valid() && (mutex.owner.None? || mutex.owner == Some(thread))
      && MembersOf(s, order) && k <= |order| && SameVersions(s.accessors, accessors)
      && State() == Prepared(s, order, k, version, works).0
      && ok == Prepared(s, order, k, version, works).1
      && writing == Opened(s, order, k, version)
    }

    /** preWrite of member k. */
    method PreWriteNext(ghost s: System<D>, order: seq<nat>, k: nat, versionNumber: nat, works: bool, thread: nat,
                        writing: seq<nat>, ok: bool)
      returns (writing': seq<nat>, ok': bool)
      requires Preparing(s, order, k, versionNumber, works, thread, writing, ok) && k < |order|
      modifies mutex, this`value, this`version, this`validity, this`targets, this`accessors, this`clock, this`movedIn,
               this`movedBack
      ensures Preparing(s, order, k + 1, versionNumber, works, thread, writing', ok')
    {
      hide C.PreWrite, Prepared, Opened;
      NextMember(s, order, k, versionNumber, works);
      var accepts, prepared := PreWriteMember(order[k], versionNumber, works, thread);
      writing', ok' := if accepts then writing + [order[k]] else writing, ok && prepared;
    }

    /** preWrite of the members in their order; those which have accepted the version have their transaction open. */
    method PreWriteMembers(order: seq<nat>, versionNumber: nat, works: bool, thread: nat)
      returns (writing: seq<nat>, ok: bool)
      requires Valid() && mutex.owner.None? && MembersOf(State(), order)
      modifies mutex, this`value, this`version, this`validity, this`targets, this`accessors, this`clock, this`movedIn,
               this`movedBack
      ensures Preparing(old(State()), order, |order|, versionNumber, works, thread, writing, ok)
    {
      ghost var s := State();
      NonePrepared(s, order, versionNumber, works);
      writing, ok := [], true;
      var k := 0;
      assert Preparing(s, order, k, versionNumber, works, thread, writing, ok);
      hide Preparing;
      while k < |order|
        invariant 0 <= k <= |order|
        invariant Preparing(s, order, k, versionNumber, works, thread, writing, ok)
      {
        writing, ok := PreWriteNext(s, order, k, versionNumber, works, thread, writing, ok);
        k := k + 1;
      }
    }
  }

  ghost predicate MembersOf<D>(s: System<D>, order: seq<nat>) {
    Lengths(s) && forall k :: 0 <= k < |order| ==> order[k] < |s.accessors|
  }

  /** Those of the first k members which have accepted the version. */
  ghost function Opened<D>(s: System<D>, order: seq<nat>, k: nat, version: nat): seq<nat>
    requires MembersOf(s, order) && k <= |order|
  {
    Accepted(s.accessors, order[..k], version)
  }

  /** The state after preWrite of the first k members, and whether no initial read has failed. */
  ghost function Prepared<D>(s: System<D>, order: seq<nat>, k: nat, version: nat, works: bool): (System<D>, bool)
    requires MembersOf(s, order) && k <= |order|
  {
    PreWriteAll(s, Opened(s, order, k, version), version, works)
  }

  lemma NonePrepared<D>(s: System<D>, order: seq<nat>, version: nat, works: bool)
    requires MembersOf(s, order)
    ensures Prepared(s, order, 0, version, works) == (s, true) && SameVersions(s.accessors, s.accessors)
    ensures Opened(s, order, 0, version) == []
  {
  }

  ghost predicate SameVersions<D>(a: seq<Accessor<D>>, b: seq<Accessor<D>>) {
    |a| == |b| && forall i :: 0 <= i < |a| ==> a[i].version == b[i].version
  }

  lemma NextMember<D>(s: System<D>, order: seq<nat>, k: nat, version: nat, works: bool)
    requires MembersOf(s, order) && k < |order|
    ensures var (c, ok) := Prepared(s, order, k, version, works);
            && Lengths(c) && |c.accessors| == |s.accessors|
            && var (c', ok') := if Accepts(s.accessors, order[k], version) then PreWrite(c, order[k], version, works)
              else (c, true);
               && SameVersions(c.accessors, c'.accessors) && Lengths(c')
               && Prepared(s, order, k + 1, version, works) == (c', ok && ok')
    ensures Opened(s, order, k + 1, version) ==
            Opened(s, order, k, version) + if Accepts(s.accessors, order[k], version) then [order[k]] else []
  {
    var r, i := Opened(s, order, k, version), order[k];
    assert order[..k + 1] == order[..k] + [i];
    var c := PreWriteAll(s, r, version, works).0;
    SameShapeLengths(s, c);
    if Accepts(s.accessors, i, version) {
      AcceptingMember(s.accessors, order[..k], i, version);
      OneMorePreWrite(s, r, i, version, works);
      PreWriteKeepsVersions(c, i, version, works);
    } else {
      RefusingMember(s.accessors, order[..k], i, version);
    }
  }

  lemma {:induction false} OneMorePreWrite<D>(s: System<D>, r: seq<nat>, i: nat, version: nat, works: bool)
    requires Lengths(s) && (forall k :: 0 <= k < |r| ==> r[k] < |s.accessors|) && i < |s.accessors|
    ensures var (c, ok) := PreWriteAll(s, r, version, works);
            && Lengths(c) && i < |c.accessors|
            && var (c', ok') := PreWrite(c, i, version, works);
               PreWriteAll(s, r + [i], version, works) == (c', ok && ok')
  {
    assert (r + [i])[..|r|] == r;
  }

  lemma PreWriteKeepsVersions<D>(c: System<D>, i: nat, version: nat, works: bool)
    requires Lengths(c) && i < |c.accessors|
    ensures SameVersions(c.accessors, PreWrite(c, i, version, works).0.accessors)
    ensures Lengths(PreWrite(c, i, version, works).0)
  {
    PreWriteShape(c, i, version, works);
  }

  lemma {:induction false} AcceptingMember<D>(accessors: seq<Accessor<D>>, order: seq<nat>, i: nat, version: nat)
    requires (forall k :: 0 <= k < |order| ==> order[k] < |accessors|) && i < |accessors|
    requires Accepts(accessors, i, version)
    ensures Accepted(accessors, order + [i], version) == Accepted(accessors, order, version) + [i]
  {
    assert (order + [i])[..|order|] == order;
  }

  lemma {:induction false} RefusingMember<D>(accessors: seq<Accessor<D>>, order: seq<nat>, i: nat, version: nat)
    requires (forall k :: 0 <= k < |order| ==> order[k] < |accessors|) && i < |accessors|
    requires !Accepts(accessors, i, version)
    ensures Accepted(accessors, order + [i], version) == Accepted(accessors, order, version)
  {
    assert (order + [i])[..|order|] == order;
  }

  /** A write through an accessor which does not share its target, phase by phase. */
  lemma SingleWrite<D>(s: System<D>, i: nat, version: nat)
    requires Inv(s) && s.functional && i < |s.accessors| && s.instances[s.accessors[i].target] == 1
        && version <= s.clock
    requires Accepts(s.accessors, i, version)
    ensures var t := s.accessors[i].target;
            var s1 := PreWrite(s, i, version, true).0;
            && SameShape(s, s1) && s1.useCount == 1
            && var s2 := PostWrite(SendTarget(s1, t), i);
               && Inv(s2) && s2.useCount == 0
               && (s.readable || s.versionOnOpen <= s.shared.version ==>
                     s2.register == Splice(s.register, s.accessors[i].offset, s.accessors[i].user))
  {
    var t := s.accessors[i].target;
    assert WholeGroup(s, t, [i]);
    WriteTransferred(s, t, [i], [i], version, Sent);
    GroupWriteSendsUnion(s, t, [i], [i], version);
    SingleOverlay(s, i);
    PreWriteShape(s, i, version, true);
    var s1 := PreWrite(s, i, version, true).0;
    assert [i][..0] == [];
    assert PreWriteAll(s, [], version, true) == (s, true);
    assert PreWriteAll(s, [i], version, true).0 == s1;
    var x := SendTarget(s1, t);
    assert PostWriteAll(x, []) == x;
    assert PostWriteAll(x, [i]) == PostWrite(x, i);
  }

  lemma SingleOverlay<D>(s: System<D>, i: nat)
    requires Inv(s) && i < |s.accessors|
    ensures Overlay(Base(s), s.accessors, [i]) == Splice(Base(s), s.accessors[i].offset, s.accessors[i].user)
    ensures s.functional && (s.readable || s.versionOnOpen <= s.shared.version) ==> Base(s) == s.register
  {
    assert [i][..0] == [];
    assert Overlay(Base(s), s.accessors, []) == Base(s);
  }
}

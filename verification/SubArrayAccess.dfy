/**
 Sub-array accessors as the application sees them: which of its data transfers change, what a read shows after a write,
 and how a device gets back to work.
 */
module SubArrayAccess {
  import opened Samples
  import opened Splicing
  import opened SubArrayCache
  import opened SubArrayRuns

  // ----- what writes leave alone

  /** Only _temporaryVersion may have changed. */
  ghost predicate OnlyTemporary<D>(a: seq<Accessor<D>>, b: seq<Accessor<D>>) {
    |b| == |a| && forall i :: 0 <= i < |a| ==> b[i] == a[i].(temporary := b[i].temporary)
  }

  lemma OnlyTemporaryTransitive<D>(a: seq<Accessor<D>>, b: seq<Accessor<D>>, c: seq<Accessor<D>>)
    requires OnlyTemporary(a, b) && OnlyTemporary(b, c)
    ensures OnlyTemporary(a, c)
  {
  }

  lemma PreWriteOnlyTemporary<D>(s: System<D>, i: nat, version: nat, works: bool)
    requires Lengths(s) && i < |s.accessors|
    ensures var r := PreWrite(s, i, version, works).0.accessors;
            OnlyTemporary(s.accessors, r) && forall k :: 0 <= k < |r| && k != i ==> r[k] == s.accessors[k]
  {
  }

  lemma {:induction false} PreWriteAllOnlyTemporary<D>(s: System<D>, order: seq<nat>, version: nat, works: bool)
    requires Lengths(s) && forall k :: 0 <= k < |order| ==> order[k] < |s.accessors|
    ensures OnlyTemporary(s.accessors, PreWriteAll(s, order, version, works).0.accessors)
  {
    if order != [] {
      hide PreWrite;
      var n := |order| - 1;
      PreWriteAllOnlyTemporary(s, order[..n], version, works);
      var s1 := PreWriteAll(s, order[..n], version, works).0;
      SameShapeLengths(s, s1);
      PreWriteOnlyTemporary(s1, order[n], version, works);
      OnlyTemporaryTransitive(s.accessors, s1.accessors, PreWrite(s1, order[n], version, works).0.accessors);
    }
  }

  lemma PostWriteKeepsAccessors<D>(s: System<D>, i: nat)
    requires Indexed(s, i) && s.useCount > 0
    ensures PostWrite(s, i).accessors == s.accessors
  {
  }

  lemma {:induction false} PostWriteAllKeepsAccessors<D>(s: System<D>, order: seq<nat>)
    requires Lengths(s) && (forall k :: 0 <= k < |order| ==> order[k] < |s.accessors|) && |order| <= s.useCount
    ensures PostWriteAll(s, order).accessors == s.accessors
  {
    if order != [] {
      var n := |order| - 1;
      PostWriteAllKeepsAccessors(s, order[..n]);
      PostWriteKeepsAccessors(PostWriteAll(s, order[..n]), order[n]);
    }
  }

  lemma TransferredShape<D>(s: System<D>, t: nat, o: Outcome<D>)
    requires Lengths(s) && t < |s.targets| && (o.Lost? ==> |o.left| == |s.register|)
    ensures var x := Transferred(s, t, o);
            && Lengths(x) && x.accessors == s.accessors && x.useCount == s.useCount
            && x.instances == s.instances && |x.targets| == |s.targets|
  {
  }

  lemma ShapeKeeps<D>(s: System<D>, s': System<D>)
    requires SameShape(s, s')
    ensures Lengths(s') && s'.instances == s.instances && |s'.targets| == |s.targets|
    ensures |s'.accessors| == |s.accessors| && |s'.register| == |s'.shared.data| == |s.shared.data|
  {
  }

  /** A group write, successful or not, changes no user buffer, validity or version of its own, and no grouping. */
  lemma GroupWriteOnlyTemporary<D>(s: System<D>, t: nat, pre: seq<nat>, post: seq<nat>, version: nat, o: Outcome<D>)
    requires Idle(s) && WholeGroup(s, t, pre) && WholeGroup(s, t, post)
    requires o.Lost? ==> |o.left| == |s.register|
    ensures var r := GroupWrite(s, t, pre, post, version, o);
            && OnlyTemporary(s.accessors, r.accessors)
            && r.instances == s.instances && |r.targets| == |s.targets|
  {
    var s1 := PreWriteAll(s, pre, version, !o.ReadFails?).0;
    PreWriteAllOnlyTemporary(s, pre, version, !o.ReadFails?);
    ShapeKeeps(s, s1);
    hide SameShape, OnlyTemporary, Transferred;
    TransferredShape(s1, t, o);
    var x := Transferred(s1, t, o);
    PostWriteAllKeepsAccessors(x, post);
    ShapeKeeps(x, PostWriteAll(x, post));
  }

  /** What a write may change in the accessors: _temporaryVersion, and the version of the stamped ones. */
  ghost predicate Written<D>(a: seq<Accessor<D>>, b: seq<Accessor<D>>, stamped: set<nat>, version: nat) {
    && |b| == |a|
    && forall i :: 0 <= i < |a| ==>
         b[i] == a[i].(temporary := b[i].temporary, version := if i in stamped then version else a[i].version)
  }

  lemma StampedIsWritten<D>(a: seq<Accessor<D>>, b: seq<Accessor<D>>, order: seq<nat>, version: nat)
    requires OnlyTemporary(a, b)
    ensures Written(a, Stamped(b, order, version), (set i | i in order), version)
  {
  }

  lemma OnlyTemporaryIsWritten<D>(a: seq<Accessor<D>>, b: seq<Accessor<D>>, version: nat)
    ensures OnlyTemporary(a, b) <==> Written(a, b, {}, version)
  {
  }

  /** A write event changes no user buffer and no validity. The version is taken over by all written accessors if the
      transfer has succeeded, and by none otherwise. */
  lemma WriteKeepsUsers<D>(s: System<D>, t: nat, pre: seq<nat>, post: seq<nat>, version: nat, o: Outcome<D>)
    requires Inv(s) && Allowed(s, Write(t, pre, post, version, o))
    ensures Written(s.accessors, Step(s, Write(t, pre, post, version, o)).accessors,
                    if o.Sent? then (set i | i in pre) else {}, version)
  {
    GroupWriteOnlyTemporary(s, t, pre, post, version, o);
    var r := GroupWrite(s, t, pre, post, version, o);
    StampedIsWritten(s.accessors, r.accessors, pre, version);
    OnlyTemporaryIsWritten(s.accessors, r.accessors, version);
  }

  lemma {:induction false} CancelledInitialRead<D>(s: System<D>, t: nat, accepted: seq<nat>, version: nat, works: bool)
    requires Idle(s) && t < |s.targets| && Listed(s, t, accepted) && accepted != [] && |accepted| <= s.instances[t]
    ensures PreWriteAll(s, accepted, version, works).1 <==> (NeedsInitialRead(s) ==> works)
  {
    if NeedsInitialRead(s) && !works {
      PreWriteAllOk(s, t, accepted, version);
    } else {
      PreparedAnyway(s, t, accepted, version, works);
    }
  }

  lemma {:induction false} CancelledAccessors<D>(s: System<D>, t: nat, order: seq<nat>, version: nat, works: bool,
                                                 stop: nat, stamped: bool)
    requires Idle(s) && WholeGroup(s, t, order) && stop <= |order|
    ensures var accepted, completed := Accepted(s.accessors, order, version),
                                       Accepted(s.accessors, order[..stop], version);
            var (s1, ok) := PreWriteAll(s, accepted, version, works);
            CancelledWrite(s, t, order, version, works, stop, stamped).accessors ==
              if ok && stamped then Stamped(s1.accessors, completed, version) else s1.accessors
  {
    var accepted, completed := Accepted(s.accessors, order, version), Accepted(s.accessors, order[..stop], version);
    AcceptedPrefix(s.accessors, order, stop, version);
    var (s1, ok) := PreWriteAll(s, accepted, version, works);
    SameShapeLengths(s, s1);
    PostWriteAllKeepsAccessors(s1.(functional := s.functional && ok), completed);
  }

  /** The members whose postWrite is reached and which have accepted the version. */
  function Completed<D>(accessors: seq<Accessor<D>>, order: seq<nat>, stop: nat, version: nat): set<nat>
    requires stop <= |order|
  {
    set i | i in order[..stop] && i < |accessors| && accessors[i].version <= version
  }

  lemma TakenOver<D>(a: seq<Accessor<D>>, b: seq<Accessor<D>>, completed: seq<nat>, version: nat, takesOver: bool)
    requires OnlyTemporary(a, b)
    ensures Written(a, if takesOver then Stamped(b, completed, version) else b,
                    if takesOver then (set i | i in completed) else {}, version)
  {
    StampedIsWritten(a, b, completed, version);
    OnlyTemporaryIsWritten(a, b, version);
  }

  lemma {:induction false} NothingCompleted<D>(accessors: seq<Accessor<D>>, order: seq<nat>, stop: nat, version: nat)
    requires forall k :: 0 <= k < |order| ==> order[k] < |accessors|
    requires stop <= |order| && Accepted(accessors, order, version) == []
    ensures Completed(accessors, order, stop, version) == {}
  {
    AcceptedMembers(accessors, order, version);
    forall i | i in Completed(accessors, order, stop, version)
      ensures i in Accepted(accessors, order, version)
    {
      assert i in order && Accepts(accessors, i, version);
    }
  }

  lemma {:induction false} CompletedMembers<D>(accessors: seq<Accessor<D>>, order: seq<nat>, stop: nat, version: nat)
    requires forall k :: 0 <= k < |order| ==> order[k] < |accessors|
    requires stop <= |order|
    ensures (set i | i in Accepted(accessors, order[..stop], version)) == Completed(accessors, order, stop, version)
  {
    AcceptedMembers(accessors, order[..stop], version);
  }

  /** A cancelled write changes no user buffer and no validity either. A member takes over the version if it has
      accepted it, its postWrite has been reached, and no exception was stored in the target or raised by the initial
      read. */
  lemma CancelKeepsUsers<D>(s: System<D>, t: nat, order: seq<nat>, version: nat, works: bool, stop: nat, stamped: bool)
    requires Idle(s) && WholeGroup(s, t, order) && stop <= |order|
    ensures Written(s.accessors, CancelledWrite(s, t, order, version, works, stop, stamped).accessors,
                    if stamped && (NeedsInitialRead(s) ==> works) then Completed(s.accessors, order, stop, version)
                    else {}, version)
  {
    var accepted, completed := Accepted(s.accessors, order, version), Accepted(s.accessors, order[..stop], version);
    if accepted == [] {
      CancelledWithoutMembers(s, t, order, version, works, stop, stamped);
      NothingCompleted(s.accessors, order, stop, version);
    } else {
      CancelledWithMembers(s, t, order, version, works, stop, stamped);
    }
  }

  lemma {:induction false} CancelledPreparation<D>(s: System<D>, t: nat, order: seq<nat>, version: nat, works: bool)
    requires Idle(s) && WholeGroup(s, t, order) && Accepted(s.accessors, order, version) != []
    ensures var (s1, ok) := PreWriteAll(s, Accepted(s.accessors, order, version), version, works);
            OnlyTemporary(s.accessors, s1.accessors) && (ok <==> (NeedsInitialRead(s) ==> works))
  {
    var accepted := Accepted(s.accessors, order, version);
    AcceptedListed(s, t, order, version);
    hide OnlyTemporary;
    PreWriteAllOnlyTemporary(s, accepted, version, works);
    CancelledInitialRead(s, t, accepted, version, works);
  }

  lemma {:induction false} CancelledWithMembers<D>(s: System<D>, t: nat, order: seq<nat>, version: nat, works: bool,
                                                   stop: nat, stamped: bool)
    requires Idle(s) && WholeGroup(s, t, order) && stop <= |order|
    requires Accepted(s.accessors, order, version) != []
    ensures Written(s.accessors, CancelledWrite(s, t, order, version, works, stop, stamped).accessors,
                    if stamped && (NeedsInitialRead(s) ==> works) then Completed(s.accessors, order, stop, version)
                    else {}, version)
  {
    CancelledTakesOver(s, t, order, version, works, stop, stamped);
    hide OnlyTemporary, Written, Completed, CancelledWrite;
    CancelledPreparation(s, t, order, version, works);
  }

  lemma {:induction false} CancelledTakesOver<D>(s: System<D>, t: nat, order: seq<nat>, version: nat, works: bool,
                                                 stop: nat, stamped: bool)
    requires Idle(s) && WholeGroup(s, t, order) && stop <= |order|
    ensures Written(s.accessors, CancelledWrite(s, t, order, version, works, stop, stamped).accessors,
                    if stamped && PreWriteAll(s, Accepted(s.accessors, order, version), version, works).1
                    then Completed(s.accessors, order, stop, version) else {}, version)
  {
    GroupMembers(s, t, order);
    CancelledAccessors(s, t, order, version, works, stop, stamped);
    hide CancelledWrite, OnlyTemporary, Written, Idle, WholeGroup, Completed, Stamped;
    var accepted, completed := Accepted(s.accessors, order, version), Accepted(s.accessors, order[..stop], version);
    CompletedMembers(s.accessors, order, stop, version);
    PreWriteAllOnlyTemporary(s, accepted, version, works);
    var (s1, ok) := PreWriteAll(s, accepted, version, works);
    TakenOver(s.accessors, s1.accessors, completed, version, ok && stamped);
  }

  lemma GroupMembers<D>(s: System<D>, t: nat, order: seq<nat>)
    requires Idle(s) && WholeGroup(s, t, order)
    ensures Lengths(s) && forall k :: 0 <= k < |order| ==> order[k] < |s.accessors|
  {
  }

  // ----- what events do to device and shared buffer

  lemma {:induction false} PreWriteAllKeepsDevice<D>(s: System<D>, order: seq<nat>, version: nat, works: bool)
    requires Lengths(s) && forall k :: 0 <= k < |order| ==> order[k] < |s.accessors|
    ensures var r := PreWriteAll(s, order, version, works).0; r.register == s.register && r.sent == s.sent
  {
    if order != [] {
      hide PreWrite;
      var n := |order| - 1;
      PreWriteAllKeepsDevice(s, order[..n], version, works);
      var s1 := PreWriteAll(s, order[..n], version, works).0;
      SameShapeLengths(s, s1);
      PreWriteKeepsDevice(s1, order[n], version, works);
    }
  }

  lemma PreWriteKeepsDevice<D>(s: System<D>, i: nat, version: nat, works: bool)
    requires Lengths(s) && i < |s.accessors|
    ensures var r := PreWrite(s, i, version, works).0; r.register == s.register && r.sent == s.sent
  {
  }

  lemma {:induction false} PostWriteAllKeepsDevice<D>(s: System<D>, order: seq<nat>)
    requires Lengths(s) && (forall k :: 0 <= k < |order| ==> order[k] < |s.accessors|) && |order| <= s.useCount
    ensures var r := PostWriteAll(s, order);
            r.register == s.register && r.sent == s.sent && r.functional == s.functional
  {
    if order != [] {
      hide PostWrite;
      var n := |order| - 1;
      PostWriteAllKeepsDevice(s, order[..n]);
      PostWriteKeepsDevice(PostWriteAll(s, order[..n]), order[n]);
    }
  }

  lemma PostWriteKeepsDevice<D>(s: System<D>, i: nat)
    requires Indexed(s, i) && s.useCount > 0
    ensures var r := PostWrite(s, i); r.register == s.register && r.sent == s.sent && r.functional == s.functional
  {
  }

  /** A write which fails: the device holds what the transfer has left there, and the backend knows about the failure if
      it was reported; or, if already the initial read fails, the device is as before and known to be broken. */
  lemma {:induction false} FailedWriteLeaves<D>(s: System<D>, t: nat, pre: seq<nat>, post: seq<nat>, version: nat,
                                                o: Outcome<D>)
    requires Inv(s) && Allowed(s, Write(t, pre, post, version, o)) && !o.Sent?
    ensures var r := Step(s, Write(t, pre, post, version, o));
            && r.register == (if o.Lost? then o.left else s.register)
            && r.functional == (s.functional && o.Lost? && !o.reported)
            && (o.Lost? ==> r.shared.data == Overlay(Base(s), s.accessors, pre)) && r.sent == s.sent
  {
    var s1 := PreWriteAll(s, pre, version, !o.ReadFails?).0;
    PreWriteAllKeepsDevice(s, pre, version, !o.ReadFails?);
    ShapeKeeps(s, s1);
    TransferredShape(s1, t, o);
    PostWriteAllKeepsDevice(Transferred(s1, t, o), post);
    if o.Lost? { WriteTransferred(s, t, pre, post, version, o); }
  }

  /** A cancelled write does not change the device. The slices of those members which have accepted the version are in
      the shared buffer, unless there are none or the initial read has failed. */
  lemma {:induction false} CancelLeaves<D>(s: System<D>, t: nat, order: seq<nat>, version: nat, works: bool, stop: nat,
                                           stamped: bool)
    requires Inv(s) && Allowed(s, Cancel(t, order, version, works, stop, stamped))
    ensures var r := Step(s, Cancel(t, order, version, works, stop, stamped));
            var accepted := Accepted(s.accessors, order, version);
            && r.register == s.register && r.sent == s.sent
            && r.functional == (s.functional && (accepted == [] || (NeedsInitialRead(s) ==> works)))
            && (accepted == [] ==> r == s)
            && (accepted != [] && (NeedsInitialRead(s) ==> works) ==>
                  && r.shared.data == Overlay(Base(s), s.accessors, accepted)
                  && r.shared.version == VersionAfterCancel(s, t, accepted, version))
  {
    if Accepted(s.accessors, order, version) == [] {
      CancelledWithoutMembers(s, t, order, version, works, stop, stamped);
    } else {
      CancelledOnDevice(s, t, order, version, works, stop, stamped);
      if NeedsInitialRead(s) ==> works { CancelledInBuffer(s, t, order, version, works, stop, stamped); }
    }
  }

  lemma {:induction false} CancelledOnDevice<D>(s: System<D>, t: nat, order: seq<nat>, version: nat, works: bool,
                                                stop: nat, stamped: bool)
    requires Idle(s) && WholeGroup(s, t, order) && stop <= |order| && Accepted(s.accessors, order, version) != []
    ensures var r := CancelledWrite(s, t, order, version, works, stop, stamped);
            && r.register == s.register && r.sent == s.sent
            && r.functional == (s.functional && (NeedsInitialRead(s) ==> works))
  {
    GroupMembers(s, t, order);
    var accepted, completed := Accepted(s.accessors, order, version), Accepted(s.accessors, order[..stop], version);
    AcceptedPrefix(s.accessors, order, stop, version);
    CancelledPreparation(s, t, order, version, works);
    PreWriteAllKeepsDevice(s, accepted, version, works);
    var (s1, ok) := PreWriteAll(s, accepted, version, works);
    ShapeKeeps(s, s1);
    hide NeedsInitialRead, OnlyTemporary, Idle, WholeGroup, SameShape, Stamped;
    PostWriteAllKeepsDevice(s1.(functional := s.functional && ok), completed);
  }

  /** The shared buffer after preWrite and postWrite of those which have accepted. */
  lemma {:induction false} AcceptedInBuffer<D>(s: System<D>, t: nat, order: seq<nat>, version: nat, works: bool)
    requires Inv(s) && WholeGroup(s, t, order) && version <= s.clock
    requires Accepted(s.accessors, order, version) != [] && (NeedsInitialRead(s) ==> works)
    ensures var accepted := Accepted(s.accessors, order, version);
            var (c, ok) := PreWriteAll(s, accepted, version, works);
            && ok && c.functional == s.functional
            && var r := PostWriteAll(c, accepted);
               && r.shared.data == Overlay(Base(s), s.accessors, accepted)
               && r.shared.version == VersionAfterCancel(s, t, accepted, version)
  {
    var accepted := Accepted(s.accessors, order, version);
    AcceptedListed(s, t, order, version);
    if |accepted| == |order| {
      AllAccepted(s.accessors, order, version);
      AllCancelled(s, t, accepted, version, works);
    } else {
      PartCancelled(s, t, accepted, version, works);
    }
  }

  lemma {:induction false} CancelledShared<D>(s: System<D>, t: nat, order: seq<nat>, version: nat, works: bool,
                                              stop: nat, stamped: bool)
    requires Idle(s) && WholeGroup(s, t, order) && stop <= |order|
    requires Accepted(s.accessors, order[..stop], version) == Accepted(s.accessors, order, version)
    ensures var accepted := Accepted(s.accessors, order, version);
            var (c, ok) := PreWriteAll(s, accepted, version, works);
            ok && c.functional == s.functional ==>
              CancelledWrite(s, t, order, version, works, stop, stamped).shared == PostWriteAll(c, accepted).shared
  {
    var c := PreWriteAll(s, Accepted(s.accessors, order, version), version, works).0;
    assert c.functional == s.functional ==> c.(functional := s.functional) == c;
  }

  lemma {:induction false} CancelledInBuffer<D>(s: System<D>, t: nat, order: seq<nat>, version: nat, works: bool,
                                                stop: nat, stamped: bool)
    requires Inv(s) && Allowed(s, Cancel(t, order, version, works, stop, stamped))
    requires Accepted(s.accessors, order, version) != [] && (NeedsInitialRead(s) ==> works)
    ensures var r := CancelledWrite(s, t, order, version, works, stop, stamped);
            var accepted := Accepted(s.accessors, order, version);
            && r.shared.data == Overlay(Base(s), s.accessors, accepted)
            && r.shared.version == VersionAfterCancel(s, t, accepted, version)
  {
    hide CancelledWrite, NeedsInitialRead, VersionAfterCancel, Base;
    AcceptedPrefix(s.accessors, order, stop, version);
    AcceptedInBuffer(s, t, order, version, works);
    CancelledShared(s, t, order, version, works, stop, stamped);
  }

  /** A read changes nothing on the device. Without data, shared buffer and accessors are as before. */
  lemma ReadLeaves<D>(s: System<D>, t: nat, pre: seq<nat>, post: seq<nat>, works: bool, alive: bool)
    requires Inv(s) && Allowed(s, Read(t, pre, post, works, alive))
    ensures var r := Step(s, Read(t, pre, post, works, alive));
            && r.register == s.register && r.functional == (s.functional && alive)
            && (works ==> r.shared.data == s.register && s.shared.version < r.shared.version)
            && (!works ==> r.shared == s.shared && r.accessors == s.accessors)
  {
    hide SameShape;
    GroupReadFillsSlices(s, t, pre, post, works, alive);
  }

  // ----- what a read shows after a write

  /** The same slices of the same register. */
  lemma WholeGroupKept<D>(s: System<D>, s': System<D>, u: nat, order: seq<nat>)
    requires WholeGroup(s, u, order) && |s'.targets| == |s.targets| && s'.instances == s.instances
    requires |s'.accessors| == |s.accessors|
    requires forall i :: 0 <= i < |s.accessors| ==>
               var a, a' := s.accessors[i], s'.accessors[i];
               a'.target == a.target && a'.offset == a.offset && |a'.user| == |a.user|
    ensures WholeGroup(s', u, order)
  {
    forall k, l | 0 <= k < l < |order|
      ensures order[k] != order[l] && Disjoint(s'.accessors[order[k]], s'.accessors[order[l]])
    {
      assert Disjoint(s.accessors[order[k]], s.accessors[order[l]]);
    }
  }

  /** What the register holds after the slices of a group have been written to base. */
  ghost predicate Holds<D>(register: seq<D>, base: seq<D>, accessors: seq<Accessor<D>>, order: seq<nat>)
    requires |register| == |base| && Inside(base, accessors, order)
  {
    forall b :: 0 <= b < |base| ==>
      && (forall k :: 0 <= k < |order| && accessors[order[k]].Reaches(b) ==>
            register[b] == accessors[order[k]].user[b - accessors[order[k]].offset])
      && (Outside(accessors, order, b) ==> register[b] == base[b])
  }

  lemma {:induction false} OverlayHolds<D>(s: System<D>, t: nat, base: seq<D>, order: seq<nat>)
    requires Listed(s, t, order) && Inside(base, s.accessors, order)
    ensures Holds(Overlay(base, s.accessors, order), base, s.accessors, order)
  {
    forall b | 0 <= b < |base|
      ensures forall k :: 0 <= k < |order| && s.accessors[order[k]].Reaches(b) ==>
                Overlay(base, s.accessors, order)[b] == s.accessors[order[k]].user[b - s.accessors[order[k]].offset]
      ensures Outside(s.accessors, order, b) ==> Overlay(base, s.accessors, order)[b] == base[b]
    {
      OverlayIsUnion(base, s.accessors, order, b);
    }
  }

  /** A successful write event. */
  lemma WriteArrives<D>(s: System<D>, t: nat, pre: seq<nat>, post: seq<nat>, version: nat)
    requires Inv(s) && Allowed(s, Write(t, pre, post, version, Sent))
    ensures var s1 := Step(s, Write(t, pre, post, version, Sent));
            && Inv(s1) && s1.functional
            && |s1.register| == |s.register| && Holds(s1.register, Base(s), s.accessors, pre)
  {
    WriteStep(s, t, pre, post, version, Sent);
    WriteTransferred(s, t, pre, post, version, Sent);
    GroupWriteSendsUnion(s, t, pre, post, version);
    OverlayHolds(s, t, Base(s), pre);
  }

  lemma WriteKeepsGroups<D>(s: System<D>, t: nat, pre: seq<nat>, post: seq<nat>, version: nat, u: nat, order: seq<nat>)
    requires Inv(s) && Allowed(s, Write(t, pre, post, version, Sent)) && WholeGroup(s, u, order)
    ensures WholeGroup(Step(s, Write(t, pre, post, version, Sent)), u, order)
  {
    GroupWriteOnlyTemporary(s, t, pre, post, version, Sent);
    WriteKeepsUsers(s, t, pre, post, version, Sent);
    WholeGroupKept(s, Step(s, Write(t, pre, post, version, Sent)), u, order);
  }

  /** What accessors show of a register which holds the slices of a group: byte by byte what has been written, or what
      the base has been. */
  ghost predicate ShowsWritten<D>(a: Accessor<D>, a': Accessor<D>, base: seq<D>, accessors: seq<Accessor<D>>,
                                  order: seq<nat>)
    requires Inside(base, accessors, order) && a.offset + |a.user| <= |base|
  {
    && |a'.user| == |a.user|
    && forall b :: 0 <= b < |a.user| ==>
         && (forall k :: 0 <= k < |order| && accessors[order[k]].Reaches(a.offset + b) ==>
               a'.user[b] == accessors[order[k]].user[a.offset + b - accessors[order[k]].offset])
         && (Outside(accessors, order, a.offset + b) ==> a'.user[b] == base[a.offset + b])
  }

  lemma SliceOfWritten<D>(a: Accessor<D>, a1: Accessor<D>, a2: Accessor<D>, register: seq<D>, base: seq<D>,
                          accessors: seq<Accessor<D>>, order: seq<nat>, received: Sample<seq<D>>)
    requires received.data == register && |register| == |base| && Inside(base, accessors, order)
        && Holds(register, base, accessors, order)
    requires a1.offset == a.offset && |a1.user| == |a.user| && a.offset + |a.user| <= |base|
    requires ShowsSlice(a1, a2, received)
    ensures ShowsWritten(a, a2, base, accessors, order)
  {
    hide Outside;
    forall b | 0 <= b < |a.user|
      ensures a2.user[b] == register[a.offset + b]
    {
    }
  }

  /** The device works, and its register holds what has been written over the base. */
  ghost predicate Arrived<D>(s: System<D>, base: seq<D>, order: seq<nat>, s1: System<D>) {
    && Lengths(s) && |base| == |s.register| == |s1.register| && Inside(base, s.accessors, order)
    && Inv(s1) && s1.functional && Holds(s1.register, base, s.accessors, order)
    && |s1.accessors| == |s.accessors|
    && forall i :: 0 <= i < |s.accessors| ==>
         s1.accessors[i].offset == s.accessors[i].offset && |s1.accessors[i].user| == |s.accessors[i].user|
  }

  lemma WriteHasArrived<D>(s: System<D>, t: nat, pre: seq<nat>, post: seq<nat>, version: nat)
    requires Inv(s) && Allowed(s, Write(t, pre, post, version, Sent))
    ensures Arrived(s, Base(s), pre, Step(s, Write(t, pre, post, version, Sent)))
  {
    WriteArrives(s, t, pre, post, version);
    WriteKeepsUsers(s, t, pre, post, version, Sent);
  }

  /** The accessors which have read show what has been written, and the device still works. */
  ghost predicate ReadBack<D>(s: System<D>, base: seq<D>, order: seq<nat>, s1: System<D>, post: seq<nat>,
                              s2: System<D>)
    requires Lengths(s) && |base| == |s.register| && Inside(base, s.accessors, order)
  {
    && s2.functional && s2.register == s1.register && |s2.accessors| == |s.accessors|
    && forall i :: i in post ==>
         && i < |s.accessors| && s2.accessors[i].validity == Ok
         && ShowsWritten(s.accessors[i], s2.accessors[i], base, s.accessors, order)
  }

  lemma SlicesReadBack<D>(s: System<D>, base: seq<D>, order: seq<nat>, s1: System<D>, post: seq<nat>, s2: System<D>,
                          received: Sample<seq<D>>)
    requires received.data == s1.register && received.validity == Ok && Arrived(s, base, order, s1) && s2.functional
        && s2.register == s1.register
    requires |s2.accessors| == |s.accessors| && forall k :: 0 <= k < |post| ==> post[k] < |s.accessors|
    requires forall i :: 0 <= i < |s.accessors| && i in post ==>
               && s1.accessors[i].offset + |s1.accessors[i].user| <= |s1.register|
               && ShowsSlice(s1.accessors[i], s2.accessors[i], received)
    ensures ReadBack(s, base, order, s1, post, s2)
  {
    hide Inv, Holds, ShowsWritten;
    forall i | i in post
      ensures i < |s.accessors| && s2.accessors[i].validity == Ok
      ensures ShowsWritten(s.accessors[i], s2.accessors[i], base, s.accessors, order)
    {
      SliceOfWritten(s.accessors[i], s1.accessors[i], s2.accessors[i], s1.register, base, s.accessors, order, received);
    }
  }

  lemma ReadKeepsDevice<D>(s: System<D>, u: nat, pre: seq<nat>, post: seq<nat>)
    requires Idle(s) && WholeGroup(s, u, pre) && WholeGroup(s, u, post)
    ensures var r := GroupRead(s, u, pre, post, true, true);
            r.functional == s.functional && r.register == s.register
  {
    hide SameShape;
    GroupReadFillsSlices(s, u, pre, post, true, true);
  }

  lemma ReadShows<D>(s: System<D>, u: nat, pre: seq<nat>, post: seq<nat>)
    requires Idle(s) && WholeGroup(s, u, pre) && WholeGroup(s, u, post)
    ensures var r := GroupRead(s, u, pre, post, true, true);
            && |r.accessors| == |s.accessors|
            && (forall k :: 0 <= k < |post| ==> post[k] < |s.accessors|)
            && forall i :: 0 <= i < |s.accessors| && i in post ==>
                 && s.accessors[i].offset + |s.accessors[i].user| <= |s.register|
                 && ShowsSlice(s.accessors[i], r.accessors[i], Sample(s.register, s.clock + 1, Ok))
  {
    hide SameShape, ReadDone, ShowsSlice;
    GroupReadFillsSlices(s, u, pre, post, true, true);
  }

  lemma ReadWorks<D>(s: System<D>, u: nat, pre: seq<nat>, post: seq<nat>)
    requires Inv(s) && s.functional && WholeGroup(s, u, pre) && WholeGroup(s, u, post)
    ensures Allowed(s, Read(u, pre, post, true, true))
    ensures Step(s, Read(u, pre, post, true, true)) == GroupRead(s, u, pre, post, true, true)
  {
  }

  /** A read after that. */
  lemma ReadAfter<D>(s: System<D>, base: seq<D>, order: seq<nat>, s1: System<D>, u: nat, pre: seq<nat>, post: seq<nat>)
    requires Arrived(s, base, order, s1) && WholeGroup(s1, u, pre) && WholeGroup(s1, u, post)
    ensures Allowed(s1, Read(u, pre, post, true, true))
    ensures ReadBack(s, base, order, s1, post, Step(s1, Read(u, pre, post, true, true)))
  {
    ReadWorks(s1, u, pre, post);
    ReadKeepsDevice(s1, u, pre, post);
    ReadShows(s1, u, pre, post);
    hide Step, Allowed, WholeGroup, ShowsSlice;
    SlicesReadBack(s, base, order, s1, post, Step(s1, Read(u, pre, post, true, true)),
      Sample(s1.register, s1.clock + 1, Ok));
  }

  /** Round trip: what a successful read of any group shows after a successful write of any group is, byte by byte, what
      has been written, or what the write has found on the device or in the shared buffer. */
  lemma WriteReadRoundTrip<D>(s: System<D>, t: nat, pre: seq<nat>, post: seq<nat>, version: nat,
                              u: nat, pre': seq<nat>, post': seq<nat>)
    requires Inv(s) && Allowed(s, Write(t, pre, post, version, Sent))
    requires WholeGroup(s, u, pre') && WholeGroup(s, u, post')
    ensures var s1 := Step(s, Write(t, pre, post, version, Sent));
            && Inv(s1) && Allowed(s1, Read(u, pre', post', true, true))
            && Inside(Base(s), s.accessors, pre)
            && ReadBack(s, Base(s), pre, s1, post', Step(s1, Read(u, pre', post', true, true)))
  {
    var s1 := Step(s, Write(t, pre, post, version, Sent));
    WriteHasArrived(s, t, pre, post, version);
    WriteKeepsGroups(s, t, pre, post, version, u, pre');
    WriteKeepsGroups(s, t, pre, post, version, u, post');
    hide Step, Base, Holds, Allowed, WholeGroup;
    ReadAfter(s, Base(s), pre, s1, u, pre', post');
  }

  // ----- getting to work

  lemma Opening<D>(s: System<D>, content: seq<D>)
    requires Inv(s) && |content| == |s.register|
    ensures Allowed(s, Open(content))
    ensures var s1 := Step(s, Open(content));
            && Inv(s1) && s1.functional && s1.register == content && s1.accessors == s.accessors
            && s1.targets == s.targets && s1.instances == s.instances && s1.readable == s.readable
            && s.clock < s1.versionOnOpen <= s1.clock && s1.shared.version < s1.versionOnOpen
  {
  }

  /** Between transfers a new version number is newer than all version numbers in use, and setting a user buffer is
      nobody else's concern. */
  lemma Preparing<D>(s: System<D>, i: nat, user: seq<D>, validity: Validity)
    requires Inv(s) && i < |s.accessors| && |user| == |s.accessors[i].user|
    ensures Allowed(s, NewVersion) && Allowed(Step(s, NewVersion), SetUser(i, user, validity))
    ensures var r := Step(Step(s, NewVersion), SetUser(i, user, validity));
            && Inv(r) && s.clock < r.clock && s.shared.version < r.clock
            && (forall t :: 0 <= t < |s.targets| ==> s.targets[t].version < r.clock)
            && r.accessors == s.accessors[i := s.accessors[i].(user := user, validity := validity)]
            && r == s.(clock := r.clock, accessors := r.accessors)
  {
  }

  ghost predicate Next<D>(s: System<D>, e: Event<D>, s': System<D>) {
    Inv(s) && Allowed(s, e) && s' == Step(s, e) && Inv(s')
  }

  lemma {:induction false} LegalLast<D>(s: System<D>, e: Event<D>, s': System<D>)
    requires Next(s, e, s')
    ensures Inv(s) && Legal(s, [e]) && Run(s, [e]) == s'
  {
    assert [e][1..] == [];
    assert Legal(s', []) && Run(s', []) == s';
  }

  lemma {:induction false} LegalNext<D>(s: System<D>, e: Event<D>, s': System<D>, es: seq<Event<D>>)
    requires Next(s, e, s') && Legal(s', es)
    ensures Inv(s) && Legal(s, [e] + es) && Run(s, [e] + es) == Run(s', es)
  {
    assert ([e] + es)[1..] == es;
  }

  /** The application opens the device, takes a new version number, fills the user buffer of accessor i, writes its
      group and reads it back. */
  function Recovery<D>(t: nat, pre: seq<nat>, post: seq<nat>, i: nat, content: seq<D>, user: seq<D>, validity: Validity,
                       version: nat): seq<Event<D>> {
    [Open(content)] + ([NewVersion] + ([SetUser(i, user, validity)] +
      ([Write(t, pre, post, version, Sent)] + [Read(t, pre, post, true, true)])))
  }

  /** The state in which the group is written. */
  ghost predicate ReadyToWrite<D>(s: System<D>, i: nat, content: seq<D>, user: seq<D>, s3: System<D>) {
    && i < |s.accessors| && |user| == |s.accessors[i].user|
    && Inv(s3) && s3.functional && s3.register == content && s3.clock == s.clock + 2
    && (s.readable ==> Base(s3) == content)
    && |s3.accessors| == |s.accessors| && |s3.targets| == |s.targets| && s3.instances == s.instances
    && s3.accessors[i].user == user && s3.accessors == s.accessors[i := s3.accessors[i]]
    && s3.accessors[i] == s.accessors[i].(user := user, validity := s3.accessors[i].validity)
  }

  lemma GettingReady<D>(s: System<D>, i: nat, content: seq<D>, user: seq<D>, validity: Validity)
    requires Inv(s) && |content| == |s.register| && i < |s.accessors| && |user| == |s.accessors[i].user|
    ensures var s1 := Step(s, Open(content));
            && Allowed(s, Open(content)) && Inv(s1) && Allowed(s1, NewVersion) && Inv(Step(s1, NewVersion))
            && Allowed(Step(s1, NewVersion), SetUser(i, user, validity))
            && ReadyToWrite(s, i, content, user, Step(Step(s1, NewVersion), SetUser(i, user, validity)))
  {
    Opening(s, content);
    Preparing(Step(s, Open(content)), i, user, validity);
  }

  lemma ReadyAllows<D>(s: System<D>, t: nat, pre: seq<nat>, post: seq<nat>, i: nat, content: seq<D>, user: seq<D>,
                       s3: System<D>)
    requires ReadyToWrite(s, i, content, user, s3) && WholeGroup(s, t, pre) && WholeGroup(s, t, post)
    requires forall k :: 0 <= k < |pre| ==> s.accessors[pre[k]].version <= s.clock
    ensures WholeGroup(s3, t, pre) && WholeGroup(s3, t, post)
    ensures Allowed(s3, Write(t, pre, post, s.clock + 2, Sent))
  {
    WholeGroupKept(s, s3, t, pre);
    WholeGroupKept(s, s3, t, post);
  }

  /** The device works, the register holds the user buffers of the group, with the new one of accessor i, over what has
      been on the device if that can be read, and accessor i shows its own data. */
  ghost predicate Recovered<D>(s: System<D>, pre: seq<nat>, i: nat, content: seq<D>, user: seq<D>, r: System<D>)
    requires Inside(content, s.accessors, pre) && i < |s.accessors| && |user| == |s.accessors[i].user|
  {
    && r.functional && |r.register| == |content| && i < |r.accessors|
    && (forall k :: 0 <= k < |pre| ==>
          var a := s.accessors[pre[k]];
          r.register[a.offset..a.offset + |a.user|] == if pre[k] == i then user else a.user)
    && (s.readable ==> forall b :: 0 <= b < |content| && Outside(s.accessors, pre, b) ==> r.register[b] == content[b])
    && r.accessors[i].user == user && r.accessors[i].validity == Ok
  }

  lemma RegisterHoldsSlice<D>(register: seq<D>, base: seq<D>, accessors: seq<Accessor<D>>, order: seq<nat>, k: nat)
    requires |register| == |base| && Inside(base, accessors, order) && Holds(register, base, accessors, order)
    requires k < |order|
    ensures var a := accessors[order[k]]; register[a.offset..a.offset + |a.user|] == a.user
  {
    var a := accessors[order[k]];
    forall b | 0 <= b < |a.user|
      ensures register[a.offset + b] == a.user[b]
    {
      assert a.Reaches(a.offset + b);
    }
  }

  lemma ShowsOwnData<D>(a: Accessor<D>, a': Accessor<D>, base: seq<D>, accessors: seq<Accessor<D>>, order: seq<nat>,
                        k: nat)
    requires Inside(base, accessors, order) && k < |order| && accessors[order[k]] == a
    requires a.offset + |a.user| <= |base| && ShowsWritten(a, a', base, accessors, order)
    ensures a'.user == a.user
  {
    forall b | 0 <= b < |a.user|
      ensures a'.user[b] == a.user[b]
    {
      assert a.Reaches(a.offset + b);
    }
  }

  lemma SameOutside<D>(a: seq<Accessor<D>>, b: seq<Accessor<D>>, order: seq<nat>, x: nat)
    requires |a| == |b| && forall k :: 0 <= k < |order| ==> order[k] < |a|
    requires forall i :: 0 <= i < |a| ==> b[i].offset == a[i].offset && |b[i].user| == |a[i].user|
    ensures Outside(a, order, x) <==> Outside(b, order, x)
  {
    assert forall i :: 0 <= i < |a| ==> (a[i].Reaches(x) <==> b[i].Reaches(x));
  }

  lemma ReadBackRecovers<D>(s: System<D>, t: nat, pre: seq<nat>, post: seq<nat>, i: nat, content: seq<D>, user: seq<D>,
                            s3: System<D>, s4: System<D>, s5: System<D>)
    requires Inv(s) && WholeGroup(s, t, pre) && i in pre && i in post && |content| == |s.register|
    requires ReadyToWrite(s, i, content, user, s3)
    requires Arrived(s3, Base(s3), pre, s4) && ReadBack(s3, Base(s3), pre, s4, post, s5)
    ensures Inside(content, s.accessors, pre) && Recovered(s, pre, i, content, user, s5)
  {
    hide Inv, Holds, ShowsWritten, Base;
    var n :| 0 <= n < |pre| && pre[n] == i;
    ShowsOwnData(s3.accessors[i], s5.accessors[i], Base(s3), s3.accessors, pre, n);
    SlicesRecovered(s, pre, i, user, s3, Base(s3), s5.register);
    if s.readable { RestRecovered(s, pre, s3, Base(s3), s5.register); }
  }

  lemma SlicesRecovered<D>(s: System<D>, pre: seq<nat>, i: nat, user: seq<D>, s3: System<D>, base: seq<D>,
                           register: seq<D>)
    requires |register| == |base| && Inside(base, s3.accessors, pre) && Holds(register, base, s3.accessors, pre)
    requires i < |s.accessors| == |s3.accessors| && s3.accessors == s.accessors[i := s3.accessors[i]]
    requires s3.accessors[i].offset == s.accessors[i].offset && s3.accessors[i].user == user
    requires |user| == |s.accessors[i].user|
    ensures forall k :: 0 <= k < |pre| ==>
              var a := s.accessors[pre[k]];
              register[a.offset..a.offset + |a.user|] == if pre[k] == i then user else a.user
  {
    hide Holds;
    forall k | 0 <= k < |pre|
      ensures var a := s.accessors[pre[k]];
              register[a.offset..a.offset + |a.user|] == if pre[k] == i then user else a.user
    {
      RegisterHoldsSlice(register, base, s3.accessors, pre, k);
    }
  }

  lemma RestRecovered<D>(s: System<D>, pre: seq<nat>, s3: System<D>, base: seq<D>, register: seq<D>)
    requires |register| == |base| && Inside(base, s3.accessors, pre) && Holds(register, base, s3.accessors, pre)
    requires |s.accessors| == |s3.accessors|
    requires forall i :: 0 <= i < |s.accessors| ==>
               s3.accessors[i].offset == s.accessors[i].offset && |s3.accessors[i].user| == |s.accessors[i].user|
    ensures forall b :: 0 <= b < |base| && Outside(s.accessors, pre, b) ==> register[b] == base[b]
  {
    forall b | 0 <= b < |base| && Outside(s.accessors, pre, b)
      ensures register[b] == base[b]
    {
      SameOutside(s.accessors, s3.accessors, pre, b);
    }
  }

  lemma RecoveryPrepares<D>(s: System<D>, i: nat, content: seq<D>, user: seq<D>, validity: Validity)
    returns (s1: System<D>, s2: System<D>, s3: System<D>)
    requires Inv(s) && |content| == |s.register| && i < |s.accessors| && |user| == |s.accessors[i].user|
    ensures Next(s, Open(content), s1) && Next(s1, NewVersion, s2) && Next(s2, SetUser(i, user, validity), s3)
    ensures ReadyToWrite(s, i, content, user, s3)
  {
    Opening(s, content);
    s1 := Step(s, Open(content));
    Preparing(s1, i, user, validity);
    GettingReady(s, i, content, user, validity);
    hide ReadyToWrite;
    s2 := Step(s1, NewVersion);
    s3 := Step(s2, SetUser(i, user, validity));
  }

  lemma RecoveryTransfers<D>(s: System<D>, t: nat, pre: seq<nat>, post: seq<nat>, version: nat)
    returns (s4: System<D>, s5: System<D>)
    requires Inv(s) && WholeGroup(s, t, pre) && WholeGroup(s, t, post)
        && Allowed(s, Write(t, pre, post, version, Sent))
    ensures Next(s, Write(t, pre, post, version, Sent), s4) && Next(s4, Read(t, pre, post, true, true), s5)
    ensures Arrived(s, Base(s), pre, s4) && ReadBack(s, Base(s), pre, s4, post, s5)
  {
    WriteReadRoundTrip(s, t, pre, post, version, t, pre, post);
    WriteHasArrived(s, t, pre, post, version);
    s4 := Step(s, Write(t, pre, post, version, Sent));
    StepKeepsInv(s4, Read(t, pre, post, true, true));
    hide Step, Arrived, ReadBack, Allowed, Inv;
    s5 := Step(s4, Read(t, pre, post, true, true));
  }

  /** A device can be brought back to work from every state, broken or never opened: after opening it, everything in the
      user buffers of a group reaches the register, the rest of a readable register is what the device holds, and a read
      shows what has been written. */
  lemma {:induction false} DeviceRecovers<D>(s: System<D>, t: nat, pre: seq<nat>, post: seq<nat>, i: nat,
                                             content: seq<D>, user: seq<D>, validity: Validity)
    requires Inv(s) && WholeGroup(s, t, pre) && WholeGroup(s, t, post) && i in pre && i in post
    requires |content| == |s.register| && |user| == |s.accessors[i].user|
    requires forall k :: 0 <= k < |pre| ==> s.accessors[pre[k]].version <= s.clock
    ensures var events := Recovery(t, pre, post, i, content, user, validity, s.clock + 2);
            && Legal(s, events)
            && Inside(content, s.accessors, pre) && Recovered(s, pre, i, content, user, Run(s, events))
  {
    hide Next, Recovered, Arrived, ReadBack, Legal, Run;
    var s1, s2, s3 := RecoveryPrepares(s, i, content, user, validity);
    ReadyAllows(s, t, pre, post, i, content, user, s3);
    var s4, s5 := RecoveryTransfers(s3, t, pre, post, s.clock + 2);
    hide Allowed, WholeGroup, ReadyToWrite;
    RunsRecovery(s, s1, s2, s3, s4, s5, Open(content), NewVersion, SetUser(i, user, validity),
      Write(t, pre, post, s.clock + 2, Sent), Read(t, pre, post, true, true));
    ReadBackRecovers(s, t, pre, post, i, content, user, s3, s4, s5);
  }

  /** The steps of the recovery, one after the other. */
  lemma {:induction false} RunsRecovery<D>(s: System<D>, s1: System<D>, s2: System<D>, s3: System<D>, s4: System<D>,
                                           s5: System<D>, a: Event<D>, b: Event<D>, c: Event<D>, d: Event<D>,
                                           e: Event<D>)
    requires Next(s, a, s1) && Next(s1, b, s2) && Next(s2, c, s3) && Next(s3, d, s4) && Next(s4, e, s5)
    ensures Inv(s) && Legal(s, [a] + ([b] + ([c] + ([d] + [e])))) && Run(s, [a] + ([b] + ([c] + ([d] + [e])))) == s5
  {
    hide Next, Legal, Run;
    LegalLast(s4, e, s5);
    LegalNext(s3, d, s4, [e]);
    LegalNext(s2, c, s3, [d] + [e]);
    LegalNext(s1, b, s2, [c] + ([d] + [e]));
    LegalNext(s, a, s1, [b] + ([c] + ([d] + [e])));
  }
}

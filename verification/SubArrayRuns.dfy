/**
 Sub-array accessors sharing one register, over whole runs: the device is opened and fails, accessors are read and
 written alone or in transfer groups, transfers fail, and writes are cancelled before the transfer because some member
 of the group has thrown an exception. Between transfers the buffer shared by all accessors has to agree with the
 device.
 */
module SubArrayRuns {
  import opened Samples
  import opened Splicing
  import opened SubArrayCache

  /** While the device works, a shared buffer not older than the last opening equals the register. */
  ghost predicate Coherent<D>(s: System<D>) {
    s.functional && s.versionOnOpen <= s.shared.version ==> s.shared.data == s.register
  }

  ghost predicate Inv<D>(s: System<D>) {
    Idle(s) && Coherent(s)
  }

  // ----- versions of the accessors themselves

  /** TransferElement::preWrite of an accessor refuses versions older than its own. */
  predicate Accepts<D>(accessors: seq<Accessor<D>>, i: nat, version: nat)
    requires i < |accessors|
  {
    accessors[i].version <= version
  }

  ghost predicate AllAccept<D>(accessors: seq<Accessor<D>>, order: seq<nat>, version: nat)
    requires forall k :: 0 <= k < |order| ==> order[k] < |accessors|
  {
    forall k :: 0 <= k < |order| ==> Accepts(accessors, order[k], version)
  }

  /** The listed accessors which accept the version, in their order. */
  function Accepted<D>(accessors: seq<Accessor<D>>, order: seq<nat>, version: nat): (r: seq<nat>)
    requires forall k :: 0 <= k < |order| ==> order[k] < |accessors|
    ensures |r| <= |order|
    ensures forall k :: 0 <= k < |r| ==> r[k] < |accessors|
  {
    if order == [] then []
    else
      var n := |order| - 1;
      Accepted(accessors, order[..n], version) + if Accepts(accessors, order[n], version) then [order[n]] else []
  }

  lemma {:induction false} AcceptedMembers<D>(accessors: seq<Accessor<D>>, order: seq<nat>, version: nat)
    requires forall k :: 0 <= k < |order| ==> order[k] < |accessors|
    ensures forall i :: i in Accepted(accessors, order, version) <==> i in order && Accepts(accessors, i, version)
  {
    if order != [] {
      var n := |order| - 1;
      assert order == order[..n] + [order[n]];
      AcceptedMembers(accessors, order[..n], version);
    }
  }

  /** TransferElement::postWrite of the listed accessors without exception takes over the version. */
  function Stamped<D>(accessors: seq<Accessor<D>>, order: seq<nat>, version: nat): (r: seq<Accessor<D>>)
    ensures |r| == |accessors|
    ensures forall i :: 0 <= i < |accessors| ==> r[i] == accessors[i].(version := r[i].version)
  {
    seq(|accessors|, i requires 0 <= i < |accessors| =>
      if i in order then accessors[i].(version := version) else accessors[i])
  }

  /** The invariant does not depend on the accessors' versions. */
  lemma VersionsDoNotMatter<D>(s: System<D>, accessors: seq<Accessor<D>>)
    requires |accessors| == |s.accessors|
    requires forall i :: 0 <= i < |accessors| ==> accessors[i] == s.accessors[i].(version := accessors[i].version)
    ensures Lengths(s.(accessors := accessors)) <==> Lengths(s)
    ensures Idle(s.(accessors := accessors)) <==> Idle(s)
  {
    var s' := s.(accessors := accessors);
    if Lengths(s') {
      forall i | 0 <= i < |s.accessors|
        ensures s.accessors[i].target < |s.targets| && s.accessors[i].offset + |s.accessors[i].user| <= |s.shared.data|
      {
        assert s'.accessors[i].target == s.accessors[i].target;
      }
      forall i | 0 <= i < |s.accessors|
        ensures s.accessors[i].temporary == s'.accessors[i].temporary
      {
      }
    }
  }

  lemma {:induction false} AcceptedListed<D>(s: System<D>, t: nat, order: seq<nat>, version: nat)
    requires Listed(s, t, order)
    ensures Listed(s, t, Accepted(s.accessors, order, version))
  {
    if order != [] {
      var o, i := order[..|order| - 1], order[|order| - 1];
      ListedPrefix(s, t, order, |order| - 1);
      AcceptedListed(s, t, o, version);
      if Accepts(s.accessors, i, version) {
        assert order == o + [i];
        AcceptedMembers(s.accessors, o, version);
        ListedSnoc(s, t, o, Accepted(s.accessors, o, version), i);
      }
    }
  }

  lemma {:induction false} AllAccepted<D>(accessors: seq<Accessor<D>>, order: seq<nat>, version: nat)
    requires forall k :: 0 <= k < |order| ==> order[k] < |accessors|
    requires |Accepted(accessors, order, version)| == |order|
    ensures Accepted(accessors, order, version) == order
  {
    if order != [] {
      assert order == order[..|order| - 1] + [order[|order| - 1]];
      AllAccepted(accessors, order[..|order| - 1], version);
    }
  }

  lemma ListedPrefix<D>(s: System<D>, t: nat, order: seq<nat>, n: nat)
    requires Listed(s, t, order) && n <= |order|
    ensures Listed(s, t, order[..n])
    ensures forall k :: 0 <= k < |order| ==> order[k] < |s.accessors|
  {
    assert forall k :: 0 <= k < n ==> order[..n][k] == order[k];
  }

  /** One more accessor, which differs from all in `order`, behind some of those. */
  lemma ListedSnoc<D>(s: System<D>, t: nat, order: seq<nat>, r: seq<nat>, i: nat)
    requires Listed(s, t, order + [i]) && Listed(s, t, r) && forall j :: j in r ==> j in order
    ensures Listed(s, t, r + [i])
  {
    var o := order + [i];
    forall k | 0 <= k < |r|
      ensures r[k] != i && Disjoint(s.accessors[r[k]], s.accessors[i])
    {
      assert r[k] in order;
      var l :| 0 <= l < |order| && order[l] == r[k];
      assert o[l] == r[k] && o[|order|] == i;
    }
    assert (r + [i])[|r|] == i;
    assert o[|order|] == i;
  }

  lemma {:induction false} AcceptedLast<D>(accessors: seq<Accessor<D>>, order: seq<nat>, version: nat)
    requires order != [] && forall k :: 0 <= k < |order| ==> order[k] < |accessors|
    ensures var n := |order| - 1;
            Accepted(accessors, order, version) ==
            Accepted(accessors, order[..n], version) + if Accepts(accessors, order[n], version) then [order[n]] else []
  {
  }

  lemma {:induction false} AcceptedConcat<D>(accessors: seq<Accessor<D>>, a: seq<nat>, b: seq<nat>, version: nat)
    requires forall k :: 0 <= k < |a| ==> a[k] < |accessors|
    requires forall k :: 0 <= k < |b| ==> b[k] < |accessors|
    ensures Accepted(accessors, a + b, version) == Accepted(accessors, a, version) + Accepted(accessors, b, version)
  {
    if b == [] {
      assert a + b == a;
    } else {
      hide Accepts;
      var n := |b| - 1;
      AcceptedConcat(accessors, a, b[..n], version);
      AcceptedLast(accessors, b, version);
      AcceptedLast(accessors, a + b, version);
      assert (a + b)[..|a + b| - 1] == a + b[..n] && (a + b)[|a + b| - 1] == b[n];
    }
  }

  /** The accepting accessors among the first ones are the first ones of those accepting. */
  lemma {:induction false} AcceptedPrefix<D>(accessors: seq<Accessor<D>>, order: seq<nat>, stop: nat, version: nat)
    requires forall k :: 0 <= k < |order| ==> order[k] < |accessors|
    requires stop <= |order|
    ensures Accepted(accessors, order[..stop], version) <= Accepted(accessors, order, version)
    ensures |Accepted(accessors, order[..stop], version)| == |Accepted(accessors, order, version)| <==>
              forall k :: stop <= k < |order| ==> !Accepts(accessors, order[k], version)
  {
    assert order == order[..stop] + order[stop..];
    AcceptedConcat(accessors, order[..stop], order[stop..], version);
    NoneAcceptedFrom(accessors, order, stop, version);
    hide Accepts;
  }

  lemma {:induction false} NoneAcceptedFrom<D>(accessors: seq<Accessor<D>>, order: seq<nat>, stop: nat, version: nat)
    requires forall k :: 0 <= k < |order| ==> order[k] < |accessors|
    requires stop <= |order|
    ensures Accepted(accessors, order[stop..], version) == [] <==>
              forall k :: stop <= k < |order| ==> !Accepts(accessors, order[k], version)
  {
    var b := order[stop..];
    var r := Accepted(accessors, b, version);
    AcceptedMembers(accessors, b, version);
    if r == [] {
      forall k | stop <= k < |order|
        ensures !Accepts(accessors, order[k], version)
      {
        assert b[k - stop] == order[k];
        assert order[k] in b && order[k] !in r;
      }
    } else {
      assert r[0] in r;
      var k :| 0 <= k < |b| && b[k] == r[0];
      assert order[stop + k] == r[0];
    }
  }

  // ----- writes whose transfer has been started

  /** The version of the shared buffer after a write: i is the accessor whose postWrite comes first. If it is not the
      one whose preWrite came last, the target takes over an older temporary version. */
  ghost function VersionAfter<D>(s: System<D>, order: seq<nat>, i: nat, version: nat, failed: bool): nat
    requires order != [] && i < |s.accessors|
  {
    var v := Max(version, BaseVersion(s));
    if failed || i == order[|order| - 1] then v else Max(v, s.accessors[i].temporary)
  }

  /** The slices written over what has been remembered are what the device holds, or nobody relies on that. */
  ghost predicate Agrees<D>(s: System<D>, order: seq<nat>, version: nat, content: seq<D>)
    requires Lengths(s) && forall k :: 0 <= k < |order| ==> order[k] < |s.accessors|
  {
    !s.functional || version < s.versionOnOpen || Overlay(Base(s), s.accessors, order) == content
  }

  /** The slices of these accessors have the content which the device has there already. */
  ghost predicate AlreadyThere<D>(s: System<D>, order: seq<nat>)
    requires Lengths(s) && forall k :: 0 <= k < |order| ==> order[k] < |s.accessors|
  {
    forall k :: 0 <= k < |order| ==>
      var a := s.accessors[order[k]];
      s.register[a.offset..a.offset + |a.user|] == a.user
  }

  /** If the device works and its content is known, agreement means that the slices are there already. */
  lemma AgreesIffAlreadyThere<D>(s: System<D>, t: nat, order: seq<nat>, version: nat)
    requires Inv(s) && Listed(s, t, order)
    requires s.functional && (s.readable || s.versionOnOpen <= s.shared.version) && s.versionOnOpen <= version
    ensures Agrees(s, order, version, s.register) <==> AlreadyThere(s, order)
  {
    OverlayChangesIff(s, t, order);
  }

  lemma {:induction false} OverlayChangesIff<D>(s: System<D>, t: nat, order: seq<nat>)
    requires Lengths(s) && Listed(s, t, order)
    ensures Overlay(s.register, s.accessors, order) == s.register <==> AlreadyThere(s, order)
  {
    if AlreadyThere(s, order) {
      OverlayOfSame(s, t, order);
    } else if Overlay(s.register, s.accessors, order) == s.register {
      forall k | 0 <= k < |order|
        ensures var a := s.accessors[order[k]]; s.register[a.offset..a.offset + |a.user|] == a.user
      {
        OverlayHasSlice(s, t, order, k);
      }
      assert false;
    }
  }

  lemma {:induction false} OverlayOfSame<D>(s: System<D>, t: nat, order: seq<nat>)
    requires Lengths(s) && Listed(s, t, order) && AlreadyThere(s, order)
    ensures Overlay(s.register, s.accessors, order) == s.register
  {
    forall b | 0 <= b < |s.register|
      ensures Overlay(s.register, s.accessors, order)[b] == s.register[b]
    {
      SameByte(s, t, order, b);
    }
  }

  lemma {:induction false} SameByte<D>(s: System<D>, t: nat, order: seq<nat>, b: nat)
    requires Lengths(s) && Listed(s, t, order) && AlreadyThere(s, order) && b < |s.register|
    ensures Overlay(s.register, s.accessors, order)[b] == s.register[b]
  {
    if Outside(s.accessors, order, b) {
      OverlayElsewhere(s.register, s.accessors, order, b);
    } else {
      var k :| 0 <= k < |order| && s.accessors[order[k]].Reaches(b);
      SameOwnedByte(s, t, order, k, b);
    }
  }

  lemma {:induction false} SameOwnedByte<D>(s: System<D>, t: nat, order: seq<nat>, k: nat, b: nat)
    requires Lengths(s) && Listed(s, t, order) && AlreadyThere(s, order) && b < |s.register|
    requires k < |order| && s.accessors[order[k]].Reaches(b)
    ensures Overlay(s.register, s.accessors, order)[b] == s.register[b]
  {
    OnlyOwner(s, t, order, k, b);
    SliceByte(s, order[k], b);
    OverlayOwner(s.register, s.accessors, order, k, b);
  }

  lemma OnlyOwner<D>(s: System<D>, t: nat, order: seq<nat>, k: nat, b: nat)
    requires Listed(s, t, order) && k < |order| && s.accessors[order[k]].Reaches(b)
    ensures forall l :: k < l < |order| ==> !s.accessors[order[l]].Reaches(b)
  {
    forall l | k < l < |order|
      ensures !s.accessors[order[l]].Reaches(b)
    {
      assert Disjoint(s.accessors[order[k]], s.accessors[order[l]]);
    }
  }

  lemma SliceByte<D>(s: System<D>, i: nat, b: nat)
    requires Lengths(s) && i < |s.accessors|
    requires var a := s.accessors[i]; a.Reaches(b) && s.register[a.offset..a.offset + |a.user|] == a.user
    ensures s.accessors[i].user[b - s.accessors[i].offset] == s.register[b]
  {
    var a := s.accessors[i];
    assert s.register[a.offset..a.offset + |a.user|][b - a.offset] == s.register[b];
  }

  lemma {:induction false} OverlayHasSlice<D>(s: System<D>, t: nat, order: seq<nat>, k: nat)
    requires Lengths(s) && Listed(s, t, order) && k < |order| && Overlay(s.register, s.accessors, order) == s.register
    ensures var a := s.accessors[order[k]]; s.register[a.offset..a.offset + |a.user|] == a.user
  {
    var a := s.accessors[order[k]];
    forall b | 0 <= b < |a.user|
      ensures s.register[a.offset..a.offset + |a.user|][b] == a.user[b]
    {
      OverlayByte(s, t, order, k, b);
    }
  }

  lemma {:induction false} OverlayByte<D>(s: System<D>, t: nat, order: seq<nat>, k: nat, b: nat)
    requires Lengths(s) && Listed(s, t, order) && k < |order| && b < |s.accessors[order[k]].user|
    ensures var a := s.accessors[order[k]]; Overlay(s.register, s.accessors, order)[a.offset + b] == a.user[b]
  {
    OverlayIsUnion(s.register, s.accessors, order, s.accessors[order[k]].offset + b);
  }

  lemma {:induction false} ReturnedIdle<D>(s: System<D>, t: nat, pre: seq<nat>, i: nat, version: nat, h: System<D>,
                                           x: System<D>, r: System<D>)
    requires Inv(s) && WholeGroup(s, t, pre) && version <= s.clock && i < |h.accessors|
        && HandedOver(s, t, pre, version, h)
    requires OnlyTransferred(t, h, x) && Returned(s, t, i, h, x, r)
    ensures Idle(r)
    ensures r.shared.version == VersionAfter(s, pre, i, version, x.targets[t].failed)
    ensures r.shared.data == Overlay(Base(s), s.accessors, pre) && r.versionOnOpen == s.versionOnOpen
  {
    hide Overlay, Combined, Base, SameShape, WholeGroup;
    SameShapeLengths(s, h);
    SameShapeLengths(x, r);
  }

  /** The outcome of a write whose transfer has been started. */
  ghost predicate Concluded<D>(s: System<D>, t: nat, pre: seq<nat>, i: nat, version: nat, o: Outcome<D>, r: System<D>)
    requires Lengths(s) && !o.ReadFails? && pre != [] && i < |s.accessors|
    requires forall k :: 0 <= k < |pre| ==> pre[k] < |s.accessors|
  {
    && Idle(r)
    && r.register == (if o.Sent? then Overlay(Base(s), s.accessors, pre) else o.left)
    && r.shared.data == Overlay(Base(s), s.accessors, pre) && r.versionOnOpen == s.versionOnOpen
    && r.shared.version == VersionAfter(s, pre, i, version, o.Lost? && o.seenByTarget)
    && r.functional == (s.functional && (o.Sent? || !o.reported))
    && |r.accessors| == |s.accessors|
  }

  lemma WriteTransferred<D>(s: System<D>, t: nat, pre: seq<nat>, post: seq<nat>, version: nat, o: Outcome<D>)
    requires Inv(s) && WholeGroup(s, t, pre) && WholeGroup(s, t, post) && version <= s.clock && !o.ReadFails?
    requires o.Lost? ==> |o.left| == |s.register|
    ensures Concluded(s, t, pre, post[0], version, o, GroupWrite(s, t, pre, post, version, o))
  {
    PreWriteAllHandsOver(s, t, pre, version);
    var h := PreWriteAll(s, pre, version, true).0;
    SameShapeLengths(s, h);
    TransferConcludes(s, t, pre, post, version, o, h);
  }

  lemma {:induction false} TransferConcludes<D>(s: System<D>, t: nat, pre: seq<nat>, post: seq<nat>, version: nat,
                                                o: Outcome<D>, h: System<D>)
    requires Inv(s) && WholeGroup(s, t, pre) && WholeGroup(s, t, post) && version <= s.clock && !o.ReadFails?
    requires o.Lost? ==> |o.left| == |s.register|
    requires HandedOver(s, t, pre, version, h) && Lengths(h) && |h.accessors| == |s.accessors|
        && |h.targets| == |s.targets|
    ensures var x := Transferred(h, t, o);
            Lengths(x) && |post| <= x.useCount && Concluded(s, t, pre, post[0], version, o, PostWriteAll(x, post))
  {
    var x := Transferred(h, t, o);
    TransfersOnly(h, t, o);
    ReturnedAfter(s, t, pre, post, version, h, x);
    ReturnedIdle(s, t, pre, post[0], version, h, x, PostWriteAll(x, post));
  }

  /** A write transfer which fails leaves the shared buffer coherent exactly if the failure is reported, or what is left
      on the device is what should have been written, or the shared buffer is not relied on. */
  lemma LostWriteKeepsInvIff<D>(s: System<D>, t: nat, pre: seq<nat>, post: seq<nat>, version: nat, o: Outcome<D>)
    requires Inv(s) && WholeGroup(s, t, pre) && WholeGroup(s, t, post) && version <= s.clock
    requires o.Lost? && |o.left| == |s.register|
    ensures Inv(GroupWrite(s, t, pre, post, version, o)) <==>
              o.reported || Agrees(s, pre, VersionAfter(s, pre, post[0], version, o.seenByTarget), o.left)
  {
    WriteTransferred(s, t, pre, post, version, o);
  }

  /** What a failed transfer may leave on the device: each byte is as before or as it was sent. */
  ghost predicate MayRemain<D>(s: System<D>, order: seq<nat>, left: seq<D>)
    requires Lengths(s) && forall k :: 0 <= k < |order| ==> order[k] < |s.accessors|
  {
    && |left| == |s.register|
    && forall b :: 0 <= b < |left| ==>
         left[b] == s.register[b] || left[b] == Overlay(Base(s), s.accessors, order)[b]
  }

  /** A rejected transfer changes nothing on the device. If that is not reported, the shared buffer stays coherent
      exactly if there has been nothing to change. */
  lemma RejectedWriteKeepsInvIff<D>(s: System<D>, t: nat, pre: seq<nat>, post: seq<nat>, version: nat, seen: bool)
    requires Inv(s) && WholeGroup(s, t, pre) && WholeGroup(s, t, post) && version <= s.clock
    requires s.functional && (s.readable || s.versionOnOpen <= s.shared.version)
    ensures Inv(GroupWrite(s, t, pre, post, version, Lost(s.register, seen, false))) <==> AlreadyThere(s, pre)
  {
    LostWriteKeepsInvIff(s, t, pre, post, version, Lost(s.register, seen, false));
    AgreesIffAlreadyThere(s, t, pre, VersionAfter(s, pre, post[0], version, seen));
  }

  /** An unreported failure is harmless whatever it leaves on the device exactly if there has been nothing to change. */
  lemma UnreportedWriteHarmlessIff<D>(s: System<D>, t: nat, pre: seq<nat>, post: seq<nat>, version: nat, seen: bool)
    requires Inv(s) && WholeGroup(s, t, pre) && WholeGroup(s, t, post) && version <= s.clock
    requires s.functional && (s.readable || s.versionOnOpen <= s.shared.version)
    ensures (forall left :: MayRemain(s, pre, left) ==>
                Inv(GroupWrite(s, t, pre, post, version, Lost(left, seen, false)))) <==>
              AlreadyThere(s, pre)
  {
    RejectedWriteKeepsInvIff(s, t, pre, post, version, seen);
    assert MayRemain(s, pre, s.register);
    if AlreadyThere(s, pre) {
      OverlayChangesIff(s, t, pre);
      forall left | MayRemain(s, pre, left)
        ensures Inv(GroupWrite(s, t, pre, post, version, Lost(left, seen, false)))
      {
        assert left == s.register;
      }
    }
  }

  // ----- failing initial reads

  /** A failed initial read puts everything back, except for flags and counters. */
  ghost predicate OnlyTried<D>(s: System<D>, t: nat, s': System<D>)
    requires t < |s.targets|
  {
    && t < |s'.targets|
    && s'.shared == s.shared && s'.accessors == s.accessors && s'.instances == s.instances
    && s'.targets == s.targets[t := s'.targets[t]]
    && s'.targets[t].data == s.targets[t].data && s'.targets[t].version == s.targets[t].version
    && !s'.targets[t].reading && !s'.targets[t].writing
    && s'.register == s.register && s'.readable == s.readable && s'.functional == s.functional
    && s'.versionOnOpen == s.versionOnOpen && s.clock <= s'.clock
  }

  lemma OnlyTriedFacts<D>(s: System<D>, t: nat, c: System<D>)
    requires Lengths(s) && t < |s.targets| && OnlyTried(s, t, c)
    ensures Lengths(c) && NeedsInitialRead(c) == NeedsInitialRead(s) && c.accessors == s.accessors
    ensures t < |c.targets| && c.targets[t].version == s.targets[t].version && c.shared == s.shared
    ensures !c.targets[t].reading && !c.targets[t].writing
  {
  }

  lemma OnlyTriedTwice<D>(s: System<D>, t: nat, c: System<D>, c': System<D>)
    requires t < |s.targets| && t < |c.targets| && OnlyTried(s, t, c) && OnlyTried(c, t, c')
    ensures OnlyTried(s, t, c')
  {
  }

  lemma PreWriteFails<D>(s: System<D>, t: nat, i: nat, version: nat)
    requires Lengths(s) && NeedsInitialRead(s) && i < |s.accessors| && s.accessors[i].target == t
    requires s.targets[t].version <= s.shared.version && !s.targets[t].reading && !s.targets[t].writing
    ensures OnlyTried(s, t, PreWrite(s, i, version, false).0)
  {
  }

  lemma {:induction false} PreWriteAllFails<D>(s: System<D>, t: nat, order: seq<nat>, version: nat)
    requires Idle(s) && NeedsInitialRead(s) && t < |s.targets| && Listed(s, t, order)
    ensures OnlyTried(s, t, PreWriteAll(s, order, version, false).0)
  {
    if order != [] {
      hide PreWrite, OnlyTried, NeedsInitialRead;
      var n := |order| - 1;
      assert forall k :: 0 <= k < n ==> order[..n][k] == order[k];
      PreWriteAllFails(s, t, order[..n], version);
      var c := PreWriteAll(s, order[..n], version, false).0;
      OnlyTriedFacts(s, t, c);
      PreWriteFails(c, t, order[n], version);
      OnlyTriedTwice(s, t, c, PreWrite(c, order[n], version, false).0);
    }
  }

  lemma TakenBackInv<D>(s: System<D>, t: nat, c: System<D>, version: nat, r: System<D>)
    requires Inv(s) && t < |s.targets| && OnlyTried(s, t, c) && version <= s.clock
    requires 0 < c.useCount && r == TakenBack(c.(functional := false), t, version, c.useCount)
    ensures Idle(r)
  {
  }

  /** postWrite on fewer accessors than share the target only counts down. */
  lemma {:induction false} PostWriteAllCounts<D>(s: System<D>, t: nat, order: seq<nat>)
    requires Lengths(s) && t < |s.targets| && Listed(s, t, order) && |order| <= s.useCount < s.instances[t]
    ensures PostWriteAll(s, order) == s.(useCount := s.useCount - |order|)
  {
    if order != [] {
      var n := |order| - 1;
      assert forall k :: 0 <= k < n ==> order[..n][k] == order[k];
      PostWriteAllCounts(s, t, order[..n]);
      PostWriteLater(PostWriteAll(s, order[..n]), order[n]);
    }
  }

  /** All postWrites after a failed initial read. */
  lemma {:induction false} FailedReadIsUndone<D>(s: System<D>, t: nat, order: seq<nat>, post: seq<nat>, version: nat)
    requires Inv(s) && NeedsInitialRead(s) && t < |s.targets| && Listed(s, t, order) && Listed(s, t, post)
    requires 0 < |order| == |post| <= s.instances[t]
    ensures var c := PreWriteAll(s, order, version, false).0;
            && |post| == c.useCount
            && Inv(PostWriteAll(c.(functional := false), post))
  {
    PreWriteAllFails(s, t, order, version);
    var c := PreWriteAll(s, order, version, false).0;
    var x := c.(functional := false);
    if |post| == s.instances[t] {
      PostWriteAllReturns(x, t, post);
      TakenBackInv(s, t, c, s.accessors[post[0]].temporary, PostWriteAll(x, post));
    } else {
      PostWriteAllCounts(x, t, post);
      OnlyTriedIdle(s, t, c);
    }
  }

  lemma OnlyTriedIdle<D>(s: System<D>, t: nat, c: System<D>)
    requires Idle(s) && t < |s.targets| && OnlyTried(s, t, c)
    ensures Idle(c.(functional := false, useCount := 0))
  {
  }

  // ----- cancelled writes

  /** TransferGroup::write if some member of the group has thrown an exception in preWrite, because its own version is
      newer, or for a reason in some other register: no transfer is executed. The members in `order` are those of target
      t. The loop of the postWrites is left at position `stop` by a logic_error, which is not caught there; a refusing
      member throws one. `stamped` is false if the postWrites done throw the exception left over from an earlier
      transfer. */
  ghost function CancelledWrite<D>(s: System<D>, t: nat, order: seq<nat>, version: nat, works: bool, stop: nat,
                                   stamped: bool): System<D>
    requires Idle(s) && WholeGroup(s, t, order) && stop <= |order|
  {
    var accepted, completed := Accepted(s.accessors, order, version), Accepted(s.accessors, order[..stop], version);
    AcceptedPrefix(s.accessors, order, stop, version);
    var (s1, ok) := PreWriteAll(s, accepted, version, works);
    var s2 := PostWriteAll(s1.(functional := s.functional && ok), completed);
    if ok && stamped then s2.(accessors := Stamped(s2.accessors, completed, version)) else s2
  }

  /** The position at which the members' own refusals leave the loop. */
  function FirstRefusal<D>(accessors: seq<Accessor<D>>, order: seq<nat>, version: nat): (k: nat)
    requires forall k :: 0 <= k < |order| ==> order[k] < |accessors|
    ensures k <= |order| && forall l :: 0 <= l < k ==> Accepts(accessors, order[l], version)
    ensures k < |order| ==> !Accepts(accessors, order[k], version)
  {
    if order == [] then 0
    else if !Accepts(accessors, order[0], version) then 0
    else
      assert forall l :: 0 <= l < |order| - 1 ==> order[1..][l] == order[l + 1];
      1 + FirstRefusal(accessors, order[1..], version)
  }

  /** The version of the shared buffer after a cancelled write. */
  ghost function VersionAfterCancel<D>(s: System<D>, t: nat, accepted: seq<nat>, version: nat): nat
    requires t < |s.instances| && accepted != [] && forall k :: 0 <= k < |accepted| ==> accepted[k] < |s.accessors|
  {
    if |accepted| == s.instances[t] then VersionAfter(s, accepted, accepted[0], version, false)
    else Max(version, BaseVersion(s))
  }

  /** A cancelled write does no harm: every member of t refuses; or the loop reaches all members which have accepted,
      and either the device is known to be broken since the initial read, or what they have put into the shared buffer
      agrees with the device. */
  ghost predicate Harmless<D>(s: System<D>, t: nat, order: seq<nat>, version: nat, works: bool, stop: nat)
    requires Idle(s) && WholeGroup(s, t, order) && stop <= |order|
  {
    var accepted := Accepted(s.accessors, order, version);
    || accepted == []
    || (&& (forall k :: stop <= k < |order| ==> !Accepts(s.accessors, order[k], version))
        && ((NeedsInitialRead(s) && !works)
          || Agrees(s, accepted, VersionAfterCancel(s, t, accepted, version), s.register)))
  }

  lemma {:induction false} PreWriteAllOk<D>(s: System<D>, t: nat, order: seq<nat>, version: nat)
    requires Idle(s) && NeedsInitialRead(s) && t < |s.targets| && Listed(s, t, order)
    ensures PreWriteAll(s, order, version, false).1 <==> order == []
  {
    if order != [] {
      var n := |order| - 1;
      assert forall k :: 0 <= k < n ==> order[..n][k] == order[k];
      PreWriteAllFails(s, t, order[..n], version);
      OnlyTriedFacts(s, t, PreWriteAll(s, order[..n], version, false).0);
    }
  }

  /** preWrite and postWrite of some, but not all, accessors of a target. */
  lemma {:induction false} PartCancelled<D>(s: System<D>, t: nat, accepted: seq<nat>, version: nat, works: bool)
    requires Inv(s) && t < |s.targets| && Listed(s, t, accepted) && 0 < |accepted| < s.instances[t]
    requires (NeedsInitialRead(s) ==> works) && version <= s.clock
    ensures var (c, ok) := PreWriteAll(s, accepted, version, works);
            ok && c.useCount == |accepted| && c.functional == s.functional
            && var r := PostWriteAll(c, accepted);
               && Idle(r) && (Coherent(r) <==> Agrees(s, accepted, Max(version, BaseVersion(s)), s.register))
               && r.shared.data == Overlay(Base(s), s.accessors, accepted)
               && r.shared.version == Max(version, BaseVersion(s))
  {
    PreWriteAllCollects(s, t, accepted, version, works);
    var c := Collected(s, t, accepted, version, works);
    HandOverOnlyLast(c, accepted[|accepted| - 1]);
    CollectedShape(s, t, accepted, version, works);
    PostWriteAllCounts(c, t, accepted);
    CollectedIdle(s, t, accepted, version, works);
  }

  lemma {:induction false} CollectedIdle<D>(s: System<D>, t: nat, accepted: seq<nat>, version: nat, works: bool)
    requires Idle(s) && t < |s.targets| && Listed(s, t, accepted) && accepted != []
    requires (NeedsInitialRead(s) ==> works) && version <= s.clock
    ensures var c := Collected(s, t, accepted, version, works);
            && Idle(c.(useCount := 0)) && c.functional == s.functional && c.register == s.register
            && c.versionOnOpen == s.versionOnOpen
            && c.shared.data == Overlay(Base(s), s.accessors, accepted)
              && c.shared.version == Max(version, BaseVersion(s))
  {
    var b := InitialRead(s, t, works);
    CollectedShape(s, t, accepted, version, works);
    if NeedsInitialRead(s) { InitialReadResult(s, t); }
  }

  /** preWrite and postWrite of all accessors of a target, without a transfer in between. */
  lemma {:induction false} AllCancelled<D>(s: System<D>, t: nat, order: seq<nat>, version: nat, works: bool)
    requires Inv(s) && WholeGroup(s, t, order) && (NeedsInitialRead(s) ==> works) && version <= s.clock
    ensures var (c, ok) := PreWriteAll(s, order, version, works);
            ok && c.useCount == |order| && c.functional == s.functional
            && var r := PostWriteAll(c, order);
               && Idle(r) && (Coherent(r) <==>
                 Agrees(s, order, VersionAfter(s, order, order[0], version, false), s.register))
               && r.shared.data == Overlay(Base(s), s.accessors, order)
               && r.shared.version == VersionAfter(s, order, order[0], version, false)
  {
    var c := PreWriteAll(s, order, version, works).0;
    PreparedAnyway(s, t, order, version, works);
    PreWriteAllHandsOver(s, t, order, version);
    NothingTransferred(s, t, order, version, c);
  }

  lemma {:induction false} NothingTransferred<D>(s: System<D>, t: nat, order: seq<nat>, version: nat, h: System<D>)
    requires Inv(s) && WholeGroup(s, t, order) && version <= s.clock && HandedOver(s, t, order, version, h)
    ensures |order| <= h.useCount && Lengths(h) && |h.accessors| == |s.accessors|
    ensures var r := PostWriteAll(h, order);
            && Idle(r)
            && (Coherent(r) <==> Agrees(s, order, VersionAfter(s, order, order[0], version, false), s.register))
            && r.shared.data == Overlay(Base(s), s.accessors, order)
            && r.shared.version == VersionAfter(s, order, order[0], version, false)
  {
    SameShapeLengths(s, h);
    assert h.targets[t := h.targets[t].(failed := h.targets[t].failed)] == h.targets;
    ReturnedAfter(s, t, order, order, version, h, h);
    ReturnedIdle(s, t, order, order[0], version, h, h, PostWriteAll(h, order));
  }

  /** If no initial read is needed, it does not matter whether it would work. */
  lemma {:induction false} PreparedAnyway<D>(s: System<D>, t: nat, order: seq<nat>, version: nat, works: bool)
    requires Idle(s) && t < |s.targets| && Listed(s, t, order) && order != [] && |order| <= s.instances[t]
    requires NeedsInitialRead(s) ==> works
    ensures PreWriteAll(s, order, version, works) == PreWriteAll(s, order, version, true)
    ensures PreWriteAll(s, order, version, works).1
  {
    PreWriteAllCollects(s, t, order, version, works);
    PreWriteAllCollects(s, t, order, version, true);
  }

  lemma CancelledLocked<D>(s: System<D>, t: nat, order: seq<nat>, version: nat, works: bool, stop: nat, stamped: bool)
    requires Idle(s) && WholeGroup(s, t, order) && stop <= |order|
    ensures CancelledWrite(s, t, order, version, works, stop, stamped).useCount == 0 <==>
              forall k :: stop <= k < |order| ==> !Accepts(s.accessors, order[k], version)
  {
    AcceptedPrefix(s.accessors, order, stop, version);
  }

  lemma {:induction false} CancelledWithoutMembers<D>(s: System<D>, t: nat, order: seq<nat>, version: nat, works: bool,
                                                      stop: nat, stamped: bool)
    requires Idle(s) && WholeGroup(s, t, order) && stop <= |order| && Accepted(s.accessors, order, version) == []
    ensures CancelledWrite(s, t, order, version, works, stop, stamped) == s
  {
    AcceptedPrefix(s.accessors, order, stop, version);
    assert Stamped(s.accessors, [], version) == s.accessors;
  }

  /** The loop has reached all members which have accepted. */
  lemma {:induction false} CancelledCompletely<D>(s: System<D>, t: nat, order: seq<nat>, version: nat, works: bool,
                                                  stop: nat, stamped: bool)
    requires Inv(s) && WholeGroup(s, t, order) && version <= s.clock && stop <= |order|
    requires Accepted(s.accessors, order, version) != []
    requires Accepted(s.accessors, order[..stop], version) == Accepted(s.accessors, order, version)
    ensures Inv(CancelledWrite(s, t, order, version, works, stop, stamped)) <==>
              var accepted := Accepted(s.accessors, order, version);
              (NeedsInitialRead(s) && !works)
                || Agrees(s, accepted, VersionAfterCancel(s, t, accepted, version), s.register)
  {
    var accepted := Accepted(s.accessors, order, version);
    AcceptedListed(s, t, order, version);
    if |accepted| == |order| { AllAccepted(s.accessors, order, version); }
    if NeedsInitialRead(s) && !works {
      PreWriteAllOk(s, t, accepted, version);
      FailedReadIsUndone(s, t, accepted, accepted, version);
    } else {
      var c := PreWriteAll(s, accepted, version, works).0;
      if |accepted| == s.instances[t] {
        AllCancelled(s, t, accepted, version, works);
      } else {
        PartCancelled(s, t, accepted, version, works);
      }
      assert c.(functional := s.functional) == c;
      var r := PostWriteAll(c, accepted);
      VersionsDoNotMatter(r, Stamped(r.accessors, accepted, version));
    }
  }

  /** Exactly when the shared buffer and the mutex survive a cancelled write. */
  lemma CancelledWriteKeepsInvIff<D>(s: System<D>, t: nat, order: seq<nat>, version: nat, works: bool, stop: nat,
                                     stamped: bool)
    requires Inv(s) && WholeGroup(s, t, order) && version <= s.clock && stop <= |order|
    ensures Inv(CancelledWrite(s, t, order, version, works, stop, stamped)) <==>
        Harmless(s, t, order, version, works, stop)
  {
    CancelledLocked(s, t, order, version, works, stop, stamped);
    AcceptedPrefix(s.accessors, order, stop, version);
    if Accepted(s.accessors, order, version) == [] {
      CancelledWithoutMembers(s, t, order, version, works, stop, stamped);
    } else if forall k :: stop <= k < |order| ==> !Accepts(s.accessors, order[k], version) {
      CancelledCompletely(s, t, order, version, works, stop, stamped);
    }
  }

  /** Two ways in which a cancelled write goes wrong. Accessor 0 of a transfer group has been written with version 5
      before, accessor 1 has not. The group is written with version 3. If accessor 1 comes first, its slice ends up in
      the shared buffer but not on the device, which still works. If accessor 0 comes first, the mutex stays locked. */
  lemma RefusalDoesHarm(s: System<int>)
    requires s == OneWrittenBefore()
    ensures Inv(s) && WholeGroup(s, 0, [1, 0]) && WholeGroup(s, 0, [0, 1])
    ensures FirstRefusal(s.accessors, [1, 0], 3) == 1 && FirstRefusal(s.accessors, [0, 1], 3) == 0
    ensures var r := CancelledWrite(s, 0, [1, 0], 3, true, 1, true); r.useCount == 0 && !Inv(r)
    ensures CancelledWrite(s, 0, [0, 1], 3, true, 0, true).useCount > 0
  {
    RefusalSetting(s);
    hide Inv, WholeGroup;
    OneRefuses(s, 0, 1, 0, 3);
  }

  /** A working device whose register of two elements is shared by two accessors, the first one of which has been
      written with version 5. */
  function OneWrittenBefore(): System<int> {
    var written, other := Accessor(0, 0, [0], 5, Ok, 5), Accessor(0, 1, [7], 0, Ok, 0);
    System(Sample([0, 0], 5, Ok), 0, [Target([0, 0], 0, Ok, false, false, false)], [2], [written, other],
           [0, 0], true, true, 1, 5, 0, 0, [])
  }

  lemma RefusalSetting(s: System<int>)
    requires s == OneWrittenBefore()
    ensures Inv(s) && WholeGroup(s, 0, [1, 0]) && WholeGroup(s, 0, [0, 1])
    ensures Accepts(s.accessors, 1, 3) && !Accepts(s.accessors, 0, 3)
    ensures var a := s.accessors[1]; a.offset + |a.user| <= 2 && s.register[a.offset..a.offset + |a.user|] != a.user
  {
    assert s.accessors[0].version == 5 && s.accessors[1].version == 0;
    assert Disjoint(s.accessors[0], s.accessors[1]) && Disjoint(s.accessors[1], s.accessors[0]);
    assert s.register[1..1 + 1] == [0];
  }

  /** A transfer group of two is written to a working device, the transfer is rejected, and nobody reports that: the
      shared buffer holds a slice which is not on the device. */
  lemma UnreportedLossDoesHarm(s: System<int>)
    requires s == OneWrittenBefore()
    ensures Inv(s) && WholeGroup(s, 0, [0, 1]) && AllAccept(s.accessors, [0, 1], 5) && s.functional
    ensures MayRemain(s, [0, 1], s.register)
    ensures !Inv(GroupWrite(s, 0, [0, 1], [0, 1], 5, Lost(s.register, false, false)))
  {
    RefusalSetting(s);
    RejectedWriteKeepsInvIff(s, 0, [0, 1], [0, 1], 5, false);
    assert [0, 1][1] == 1;
  }

  /** A group of two, one of which refuses while the other one has something new. */
  lemma {:induction false} OneRefuses<D>(s: System<D>, t: nat, i: nat, j: nat, version: nat)
    requires Inv(s) && s.functional && s.versionOnOpen <= s.shared.version && version <= s.clock
    requires WholeGroup(s, t, [i, j]) && WholeGroup(s, t, [j, i]) && i < |s.accessors| && j < |s.accessors|
    requires Accepts(s.accessors, i, version) && !Accepts(s.accessors, j, version)
    requires var a := s.accessors[i]; s.register[a.offset..a.offset + |a.user|] != a.user
    ensures FirstRefusal(s.accessors, [i, j], version) == 1 && FirstRefusal(s.accessors, [j, i], version) == 0
    ensures var r := CancelledWrite(s, t, [i, j], version, true, 1, true); r.useCount == 0 && !Inv(r)
    ensures CancelledWrite(s, t, [j, i], version, true, 0, true).useCount > 0
  {
    assert [i, j][1..] == [j];
    AcceptedOfTwo(s, i, j, version);
    CancelledLocked(s, t, [i, j], version, true, 1, true);
    CancelledLocked(s, t, [j, i], version, true, 0, true);
    NotHarmless(s, t, i, j, version);
    CancelledWriteKeepsInvIff(s, t, [i, j], version, true, 1, true);
  }

  lemma {:induction false} NotHarmless<D>(s: System<D>, t: nat, i: nat, j: nat, version: nat)
    requires Inv(s) && s.functional && s.versionOnOpen <= s.shared.version
    requires WholeGroup(s, t, [i, j]) && i < |s.accessors| && j < |s.accessors|
    requires Accepted(s.accessors, [i, j], version) == [i]
    requires var a := s.accessors[i]; s.register[a.offset..a.offset + |a.user|] != a.user
    ensures !Harmless(s, t, [i, j], version, true, 1)
  {
    AcceptedListed(s, t, [i, j], version);
    AgreesIffAlreadyThere(s, t, [i], Max(version, BaseVersion(s)));
    assert [i][0] == i;
  }

  lemma {:induction false} AcceptedOfTwo<D>(s: System<D>, i: nat, j: nat, version: nat)
    requires i < |s.accessors| && j < |s.accessors|
    requires Accepts(s.accessors, i, version) && !Accepts(s.accessors, j, version)
    ensures Accepted(s.accessors, [i, j], version) == [i]
  {
    assert [i, j][..1] == [i] && [i][..0] == [];
    assert Accepted(s.accessors, [i], version) == [i];
  }

  /** A later write through any target sends what the shared buffer remembers outside the slices, the slice left there
      by a cancelled write included. */
  lemma RestIsRemembered<D>(s: System<D>, t: nat, pre: seq<nat>, post: seq<nat>, version: nat, b: nat)
    requires Idle(s) && WholeGroup(s, t, pre) && WholeGroup(s, t, post)
    requires s.versionOnOpen <= s.shared.version && b < |s.register| && Outside(s.accessors, pre, b)
    ensures GroupWrite(s, t, pre, post, version, Sent).register[b] == s.shared.data[b]
  {
    GroupWriteSendsUnion(s, t, pre, post, version);
    OverlayIsUnion(s.shared.data, s.accessors, pre, b);
  }

  // ----- runs

  datatype Event<D> =
    | Open(content: seq<D>)        // the device is (re-)opened, its content may have changed
    | Break                        // somebody reports a runtime_error
    | NewVersion                   // a version number is generated elsewhere
    | SetUser(i: nat, content: seq<D>, validity: Validity)
    | Write(t: nat, pre: seq<nat>, post: seq<nat>, version: nat, outcome: Outcome<D>)
    | Cancel(t: nat, order: seq<nat>, version: nat, works: bool, stop: nat, stamped: bool)
    | Read(t: nat, pre: seq<nat>, post: seq<nat>, works: bool, alive: bool)

  /** What can happen at all, apart from cancelled writes and unreported failures which do harm. */
  ghost predicate Allowed<D>(s: System<D>, e: Event<D>) {
    match e
    case Open(content) => |content| == |s.register|
    case Break => true
    case NewVersion => true
    case SetUser(i, content, _) => i < |s.accessors| && |content| == |s.accessors[i].user|
    case Write(t, pre, post, version, o) =>
      && Idle(s) && WholeGroup(s, t, pre) && WholeGroup(s, t, post) && version <= s.clock
      && AllAccept(s.accessors, pre, version)
      && match o {
           case Sent => s.functional
           case Lost(left, seen, reported) =>
             |left| == |s.register| && (reported || Agrees(s, pre, VersionAfter(s, pre, post[0], version, seen), left))
           case ReadFails => NeedsInitialRead(s)
         }
    case Cancel(t, order, version, works, stop, _) =>
      Idle(s) && WholeGroup(s, t, order) && version <= s.clock && stop <= |order|
        && Harmless(s, t, order, version, works, stop)
    case Read(t, pre, post, works, alive) =>
      WholeGroup(s, t, pre) && WholeGroup(s, t, post) && (works ==> s.functional && alive)
  }

  ghost function Step<D>(s: System<D>, e: Event<D>): System<D>
    requires Inv(s) && Allowed(s, e)
  {
    match e
    case Open(content) => s.(register := content, functional := true, clock := s.clock + 1,
      versionOnOpen := s.clock + 1)
    case Break => s.(functional := false)
    case NewVersion => s.(clock := s.clock + 1)
    case SetUser(i, content,
      validity) => s.(accessors := s.accessors[i := s.accessors[i].(user := content, validity := validity)])
    case Write(t, pre, post, version, o) =>
      var r := GroupWrite(s, t, pre, post, version, o);
      if o.Sent? then r.(accessors := Stamped(r.accessors, pre, version)) else r
    case Cancel(t, order, version, works, stop, stamped) => CancelledWrite(s, t, order, version, works, stop, stamped)
    case Read(t, pre, post, works, alive) => GroupRead(s, t, pre, post, works, alive)
  }

  lemma WriteStep<D>(s: System<D>, t: nat, pre: seq<nat>, post: seq<nat>, version: nat, o: Outcome<D>)
    requires Inv(s) && Allowed(s, Write(t, pre, post, version, o))
    ensures Inv(Step(s, Write(t, pre, post, version, o)))
  {
    match o
    case ReadFails => FailedReadIsUndone(s, t, pre, post, version);
    case Lost(_, _, _) => LostWriteKeepsInvIff(s, t, pre, post, version, o);
    case Sent =>
      WriteTransferred(s, t, pre, post, version, o);
      var r := GroupWrite(s, t, pre, post, version, o);
      VersionsDoNotMatter(r, Stamped(r.accessors, pre, version));
  }

  lemma StepKeepsInv<D>(s: System<D>, e: Event<D>)
    requires Inv(s) && Allowed(s, e)
    ensures Inv(Step(s, e))
  {
    match e
    case Write(t, pre, post, version, o) => WriteStep(s, t, pre, post, version, o);
    case Cancel(t, order, version, works, stop, stamped) =>
      CancelledWriteKeepsInvIff(s, t, order, version, works, stop, stamped);
    case Read(t, pre, post, works, alive) =>
      GroupReadFillsSlices(s, t, pre, post, works, alive);
      ReadDoneIdle(s, t, post, works, alive, GroupRead(s, t, pre, post, works, alive));
    case _ =>
  }

  ghost predicate Legal<D>(s: System<D>, events: seq<Event<D>>)
    requires Inv(s)
    decreases |events|
  {
    events == [] || (Allowed(s, events[0]) && (StepKeepsInv(s, events[0]); Legal(Step(s, events[0]), events[1..])))
  }

  ghost function Run<D>(s: System<D>, events: seq<Event<D>>): (s': System<D>)
    requires Inv(s) && Legal(s, events)
    ensures Inv(s')
    decreases |events|
  {
    if events == [] then s else (StepKeepsInv(s, events[0]); Run(Step(s, events[0]), events[1..]))
  }

  /** A backend which has not been opened yet, all versions null. */
  ghost predicate Initial<D>(s: System<D>) {
    && Lengths(s) && s.useCount == 0 && !s.functional && s.versionOnOpen == 0 && s.shared.version == 0
    && (forall t :: 0 <= t < |s.targets| ==>
      s.targets[t].version == 0 && !s.targets[t].reading && !s.targets[t].writing)
    && (forall i :: 0 <= i < |s.accessors| ==> s.accessors[i].temporary <= s.clock)
  }

  /** Sub-array cache coherence over every run of opens, reads, writes, failures and harmless cancelled writes, with any
      number of accessors and targets on the register. */
  lemma {:induction false} CacheCoherence<D>(s0: System<D>, events: seq<Event<D>>)
    requires Initial(s0)
    ensures Inv(s0)
    ensures Legal(s0, events) ==> Coherent(Run(s0, events)) && Run(s0, events).useCount == 0
  {
  }

  /** A successful partial write changes exactly its own slices of the register, if the register can be read or has been
      transferred since the device was opened. */
  lemma {:induction false} PartialWriteChangesSlice<D>(s: System<D>, t: nat, pre: seq<nat>, post: seq<nat>,
                                                       version: nat)
    requires Inv(s) && Allowed(s, Write(t, pre, post, version, Sent))
    requires s.readable || s.versionOnOpen <= s.shared.version
    ensures Step(s, Write(t, pre, post, version, Sent)).register == Overlay(s.register, s.accessors, pre)
  {
    GroupWriteSendsUnion(s, t, pre, post, version);
  }

  /** In general the bytes outside the slices become what the shared buffer remembers, so they stay exactly if that is
      what the device holds there, or if it can be read. */
  lemma {:induction false} PartialWriteOtherwise<D>(s: System<D>, t: nat, pre: seq<nat>, post: seq<nat>, version: nat)
    requires Inv(s) && Allowed(s, Write(t, pre, post, version, Sent))
    ensures Step(s, Write(t, pre, post, version, Sent)).register == Overlay(s.register, s.accessors, pre) <==>
              s.readable ||
              forall b :: 0 <= b < |s.register| && Outside(s.accessors, pre, b) ==> s.shared.data[b] == s.register[b]
  {
    GroupWriteSendsUnion(s, t, pre, post, version);
    OverlaysAgree(s.shared.data, s.register, s.accessors, pre);
  }

  /** The write keeps everything outside the slices if the device holds content c. */
  ghost predicate KeepsRest<D>(s: System<D>, t: nat, pre: seq<nat>, post: seq<nat>, version: nat, c: seq<D>)
    requires Inv(s.(register := c)) && Allowed(s.(register := c), Write(t, pre, post, version, Sent))
  {
    Step(s.(register := c), Write(t, pre, post, version, Sent)).register == Overlay(c, s.accessors, pre)
  }

  lemma AnyContent<D>(s: System<D>, t: nat, pre: seq<nat>, post: seq<nat>, version: nat, c: seq<D>)
    requires Inv(s) && Allowed(s, Write(t, pre, post, version, Sent)) && |c| == |s.register|
    ensures Allowed(s.(register := c), Write(t, pre, post, version, Sent))
    ensures s.shared.version < s.versionOnOpen ==> Inv(s.(register := c))
    ensures Inv(s.(register := c)) ==>
              (KeepsRest(s, t, pre, post, version, c) <==>
                 s.readable || forall b :: 0 <= b < |c| && Outside(s.accessors, pre, b) ==> s.shared.data[b] == c[b])
  {
    if Inv(s.(register := c)) { PartialWriteOtherwise(s.(register := c), t, pre, post, version); }
  }

  /** Whatever the device holds, the write keeps everything outside the slices. */
  ghost predicate Reliable<D(!new)>(s: System<D>, t: nat, pre: seq<nat>, post: seq<nat>, version: nat) {
    forall c: seq<D> :: |c| == |s.register| && Inv(s.(register := c)) ==>
      Allowed(s.(register := c), Write(t, pre, post, version, Sent)) && KeepsRest(s, t, pre, post, version, c)
  }

  /** The shared buffer has what the device holds outside the slices, or will read it. */
  predicate Remembered<D>(s: System<D>) {
    s.readable || s.versionOnOpen <= s.shared.version
  }

  /** The slices leave nothing out. */
  ghost predicate Everything<D>(s: System<D>, order: seq<nat>)
    requires forall k :: 0 <= k < |order| ==> order[k] < |s.accessors|
  {
    forall b :: 0 <= b < |s.register| ==> !Outside(s.accessors, order, b)
  }

  lemma RememberedIsReliable<D(!new)>(s: System<D>, t: nat, pre: seq<nat>, post: seq<nat>, version: nat)
    requires Inv(s) && Allowed(s, Write(t, pre, post, version, Sent))
    requires Remembered(s) || Everything(s, pre)
    ensures Reliable(s, t, pre, post, version)
  {
    forall c: seq<D> | |c| == |s.register| && Inv(s.(register := c))
      ensures Allowed(s.(register := c), Write(t, pre, post, version, Sent)) && KeepsRest(s, t, pre, post, version, c)
    {
      AnyContent(s, t, pre, post, version, c);
    }
  }

  lemma ForgottenIsUnreliable<D(!new)>(s: System<D>, t: nat, pre: seq<nat>, post: seq<nat>, version: nat, b: nat, z: D)
    requires Inv(s) && Allowed(s, Write(t, pre, post, version, Sent)) && !Remembered(s)
    requires b < |s.register| && Outside(s.accessors, pre, b) && z != s.shared.data[b]
    ensures !Reliable(s, t, pre, post, version)
  {
    var c := s.shared.data[b := z];
    ChangedContent(s, t, pre, post, version, b, z);
    hide KeepsRest, Inv;
    assert |c| == |s.register|;
  }

  lemma ChangedContent<D>(s: System<D>, t: nat, pre: seq<nat>, post: seq<nat>, version: nat, b: nat, z: D)
    requires Inv(s) && Allowed(s, Write(t, pre, post, version, Sent)) && !Remembered(s)
    requires b < |s.register| && Outside(s.accessors, pre, b) && z != s.shared.data[b]
    ensures var c := s.shared.data[b := z];
            && Inv(s.(register := c)) && Allowed(s.(register := c), Write(t, pre, post, version, Sent))
            && !KeepsRest(s, t, pre, post, version, c)
  {
    var c := s.shared.data[b := z];
    AnyContent(s, t, pre, post, version, c);
    assert s.shared.data[b] != c[b];
  }

  /** When the application can rely on a partial write, whatever the device holds: exactly if the register can be read,
      or has been transferred since the device was opened, or the slices leave nothing out (for a data type with at
      least two values). */
  lemma PartialWriteReliable<D(!new)>(s: System<D>, t: nat, pre: seq<nat>, post: seq<nat>, version: nat, x: D, y: D)
    requires Inv(s) && Allowed(s, Write(t, pre, post, version, Sent)) && x != y
    ensures Remembered(s) || Everything(s, pre) <==> Reliable(s, t, pre, post, version)
  {
    if Remembered(s) || Everything(s, pre) {
      RememberedIsReliable(s, t, pre, post, version);
    } else {
      var b :| 0 <= b < |s.register| && Outside(s.accessors, pre, b);
      ForgottenIsUnreliable(s, t, pre, post, version, b, if s.shared.data[b] == x then y else x);
    }
  }

  /** Two overlays of the same slices agree exactly if their bases agree outside the slices. */
  lemma {:induction false} OverlaysAgree<D>(base: seq<D>, other: seq<D>, accessors: seq<Accessor<D>>, order: seq<nat>)
    requires |base| == |other|
    requires forall k :: 0 <= k < |order| ==>
        order[k] < |accessors| && accessors[order[k]].offset + |accessors[order[k]].user| <= |base|
    requires forall k, l :: 0 <= k < l < |order| ==> Disjoint(accessors[order[k]], accessors[order[l]])
    ensures Overlay(base, accessors, order) == Overlay(other, accessors, order) <==>
              forall b :: 0 <= b < |base| && Outside(accessors, order, b) ==> base[b] == other[b]
  {
    var x, y := Overlay(base, accessors, order), Overlay(other, accessors, order);
    forall b | 0 <= b < |base| ensures x[b] == y[b] <==> (Outside(accessors, order, b) ==> base[b] == other[b]) {
      OverlayIsUnion(base, accessors, order, b);
      OverlayIsUnion(other, accessors, order, b);
    }
  }
}

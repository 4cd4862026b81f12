/**
 What the accessors of a ReadAnyGroup show in between, also while waitAnyNonBlocking has found an update which is not
 yet accepted: the grouped ones the version of the last grouped update delivered, and none ever an older version than
 before.
 */
module ReadAnyVersions {
  import opened Samples
  import opened HistorizedMatcher
  import opened ReadAnyGroup

  /** The last version of a grouped element among the updates delivered. */
  ghost function LastShown<D>(es: seq<Element<D>>, delivered: seq<(nat, Sample<D>)>): Option<nat> {
    if delivered == [] then None
    else
      var (i, u) := delivered[|delivered| - 1];
      if i < |es| && es[i].Grouped? then Some(u.version) else LastShown(es, delivered[..|delivered| - 1])
  }

  ghost predicate SameGrouping<D>(es: seq<Element<D>>, es': seq<Element<D>>) {
    |es'| == |es| && forall j :: 0 <= j < |es| ==> es'[j].Grouped? == es[j].Grouped?
  }

  lemma {:induction false} LastShownSnoc<D>(es: seq<Element<D>>, delivered: seq<(nat, Sample<D>)>, i: nat, u: Sample<D>)
    requires i < |es|
    ensures LastShown(es, delivered + [(i, u)]) == if es[i].Grouped? then Some(u.version) else LastShown(es, delivered)
  {
    assert (delivered + [(i, u)])[..|delivered|] == delivered;
  }

  /** The grouped accessors show the last grouped version delivered, or their initial values if there was none. */
  ghost predicate ShowsDelivered<D>(s0: System<D>, s: System<D>) {
    var es0, es := s0.group.elements, s.group.elements;
    && SameGrouping(es0, es)
    && match LastShown(es0, s.delivered)
       case Some(v) => AllShow(es, v)
       case None => forall j :: 0 <= j < |es| && es[j].Grouped? ==> es[j].user == es0[j].user
  }

  /** No accessor shows an older version than before. */
  ghost predicate NoneOlder<D>(es: seq<Element<D>>, es': seq<Element<D>>) {
    |es'| == |es| && forall j :: 0 <= j < |es| ==> es[j].user.version <= es'[j].user.version
  }

  // ----- steps

  /** All operations but accept() leave the user buffers alone. */
  lemma OthersKeepUsers<D>(s: System<D>, e: Event<D>)
    requires Inv(s) && Allowed(s, e) && !e.AcceptLast?
    ensures SameUsers(s.group.elements, Step(s, e).group.elements)
    ensures SameGrouping(s.group.elements, Step(s, e).group.elements)
    ensures Step(s, e).delivered == s.delivered
  {
    match e
    case Arrive(_, _) =>
    case Wait => WaitKeepsUsers(s);
    case Poll => PollKeepsUsers(s);
    case CallUpdate(_) =>
  }

  lemma WaitKeepsUsers<D>(s: System<D>)
    requires Core(s) && UpdateWasCalled(s) && s.outstanding.None? && s.notifications != []
    ensures var s' := WaitAny(s).0;
            && SameUsers(s.group.elements, s'.group.elements) && SameGrouping(s.group.elements, s'.group.elements)
            && s'.delivered == s.delivered
  {
    WaitAnyStep(s);
  }

  lemma PollKeepsUsers<D>(s: System<D>)
    requires Inv(s) && UpdateWasCalled(s) && s.outstanding.None?
    ensures var s' := WaitAnyNonBlocking(s).0;
            && SameUsers(s.group.elements, s'.group.elements) && SameGrouping(s.group.elements, s'.group.elements)
            && s'.delivered == s.delivered
  {
    PeekStep(s);
    PeekKeepsGrouping(s);
    if Peek(s).notifications != [] { WaitAnyStep(Peek(s)); }
  }

  lemma {:induction false} PeekKeepsGrouping<D>(s: System<D>)
    requires WellFormed(s) && s.outstanding.None?
    ensures SameGrouping(s.group.elements, Peek(s).group.elements) && Peek(s).delivered == s.delivered
    decreases |s.notifications|
  {
    if s.notifications != [] {
      EvaluateFrame(s);
      var (s1, ok) := Evaluate(s);
      if !ok { PeekKeepsGrouping(Consume(s1, false)); }
    }
  }

  /** What accept() delivers to the application. */
  ghost predicate Delivery<D>(s: System<D>, s': System<D>) {
    var es, es' := s.group.elements, s'.group.elements;
    && SameGrouping(es, es') && s.outstanding.Some? && s.outstanding.value < |es|
    && var i := s.outstanding.value;
       && s'.delivered == s.delivered + [(i, es'[i].user)]
       && NoneOlder(es, es')
       && (es[i].Grouped? ==> AllShow(es', es'[i].user.version))
       && (es[i].Plain? ==> forall j :: 0 <= j < |es| && j != i ==> es'[j].user == es[j].user)
  }

  lemma DeliverGroupedVersion<D>(s: System<D>)
    requires Inv(s) && s.evaluated && s.group.elements[Oldest(s)].Grouped?
    ensures Delivery(s, Accept(s).0)
  {
    PostReadStep(s.group, Oldest(s), s.logs);
    PostReadKeepsPlain(s.group, Oldest(s));
  }

  lemma DeliverPlainVersion<D>(s: System<D>)
    requires Inv(s) && s.evaluated && s.group.elements[Oldest(s)].Plain?
    ensures Delivery(s, Accept(s).0)
  {
    PlainPostReadStep(s.group, Oldest(s), s.logs);
    NextIsNotOlder(s, Oldest(s));
  }

  /** What is in the queue is not older than what is shown. */
  lemma NextIsNotOlder<D>(s: System<D>, i: nat)
    requires Ordered(s) && i < |s.queues| == |s.group.elements| && s.queues[i] != []
    requires ElementOk(s.group.elements[i], s.logs[i])
    ensures s.group.elements[i].user.version <= s.queues[i][0].version
  {
    var l, q := s.logs[i], s.queues[i];
    var k :| 0 <= k < |l| && l[k] == s.group.elements[i].user;
    assert (l + q)[k] == l[k] && (l + q)[|l|] == q[0];
  }

  lemma EvaluatedDelivery<D>(s: System<D>)
    requires Inv(s) && s.evaluated
    ensures Delivery(s, Accept(s).0)
  {
    if s.group.elements[Oldest(s)].Grouped? { DeliverGroupedVersion(s); } else { DeliverPlainVersion(s); }
  }

  lemma FreshDelivery<D>(s: System<D>)
    requires Inv(s) && s.outstanding.Some? && !s.evaluated && Evaluate(s).1
    ensures Delivery(s, Accept(s).0)
  {
    var s1 := Evaluate(s).0;
    EvaluateStep(s);
    AcceptEvaluates(s, s1);
    EvaluatedDelivery(s1.(evaluated := true));
    hide Core, Inv, Accept, Evaluate;
    DeliveryOfEvaluated(s, s1.(evaluated := true), Accept(s).0);
  }

  lemma DeliveryOfEvaluated<D>(s: System<D>, s1: System<D>, s': System<D>)
    requires OnlyEvaluated(s, s1.(evaluated := s.evaluated)) && Delivery(s1, s')
    ensures Delivery(s, s')
  {
  }

  lemma DiscardKeepsUsers<D>(s: System<D>)
    requires Inv(s) && s.outstanding.Some? && !s.evaluated && !Evaluate(s).1
    ensures var s' := Accept(s).0;
            && SameUsers(s.group.elements, s'.group.elements) && SameGrouping(s.group.elements, s'.group.elements)
            && s'.delivered == s.delivered
  {
    EvaluateFrame(s);
    AcceptDiscards(s, Evaluate(s).0);
  }

  lemma KeptUsersShow<D>(s0: System<D>, s: System<D>, s': System<D>)
    requires SameUsers(s.group.elements, s'.group.elements) && SameGrouping(s.group.elements, s'.group.elements)
    requires s'.delivered == s.delivered && ShowsDelivered(s0, s)
    ensures ShowsDelivered(s0, s') && NoneOlder(s.group.elements, s'.group.elements)
  {
  }

  lemma DeliveryShows<D>(s0: System<D>, s: System<D>, s': System<D>)
    requires Delivery(s, s') && ShowsDelivered(s0, s)
    ensures ShowsDelivered(s0, s')
  {
    var i := s.outstanding.value;
    LastShownSnoc(s0.group.elements, s.delivered, i, s'.group.elements[i].user);
  }

  lemma StepShows<D>(s0: System<D>, s: System<D>, e: Event<D>)
    requires Inv(s) && Allowed(s, e) && ShowsDelivered(s0, s)
    ensures ShowsDelivered(s0, Step(s, e)) && NoneOlder(s.group.elements, Step(s, e).group.elements)
  {
    if !e.AcceptLast? {
      OthersKeepUsers(s, e);
      KeptUsersShow(s0, s, Step(s, e));
    } else if s.evaluated || Evaluate(s).1 {
      if s.evaluated { EvaluatedDelivery(s); } else { FreshDelivery(s); }
      DeliveryShows(s0, s, Step(s, e));
    } else {
      DiscardKeepsUsers(s);
      KeptUsersShow(s0, s, Step(s, e));
    }
  }

  lemma {:induction false} RunShows<D>(s0: System<D>, s: System<D>, events: seq<Event<D>>)
    requires Inv(s) && Legal(s, events) && ShowsDelivered(s0, s)
    ensures ShowsDelivered(s0, Run(s, events)) && NoneOlder(s.group.elements, Run(s, events).group.elements)
    decreases |events|
  {
    if events != [] {
      StepShows(s0, s, events[0]);
      RunShows(s0, Step(s, events[0]), events[1..]);
    }
  }

  // ----- main theorems

  /** In every reachable state, whether or not an update has been found and is waiting to be accepted, all grouped
      accessors show the version of the last grouped update the application has been given, or their initial values. */
  lemma {:induction false} GroupShowsLastDelivered<D>(s0: System<D>, events: seq<Event<D>>)
    requires Initial(s0)
    ensures Inv(s0)
    ensures Legal(s0, events) ==> ShowsDelivered(s0, Run(s0, events))
  {
    InitialInv(s0);
    assert ShowsDelivered(s0, s0);
    if Legal(s0, events) { RunShows(s0, s0, events); }
  }

  /** No accessor ever goes back to an older version, in the group or not. */
  lemma {:induction false} VersionsNeverDecrease<D>(s0: System<D>, earlier: seq<Event<D>>, later: seq<Event<D>>)
    requires Initial(s0)
    ensures Inv(s0)
    ensures Legal(s0, earlier) && Legal(Run(s0, earlier), later) ==>
              NoneOlder(Run(s0, earlier).group.elements, Run(Run(s0, earlier), later).group.elements)
  {
    InitialInv(s0);
    if Legal(s0, earlier) && Legal(Run(s0, earlier), later) {
      GroupShowsLastDelivered(s0, earlier);
      RunShows(s0, Run(s0, earlier), later);
    }
  }
}

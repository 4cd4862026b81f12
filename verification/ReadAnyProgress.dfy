/**
 What single calls of a ReadAnyGroup deliver, and that everything which arrives is delivered or dropped in the end: no
 sequence of calls leads to a state from which the application cannot catch up.
 */
module ReadAnyProgress {
  import opened Samples
  import opened HistoryRing
  import opened HistorizedMatcher
  import opened ReadAnyGroup
  import opened ReadAnyOutcomes

  // ----- single calls

  /** update(), on states. */
  lemma UpdateCall<D>(s0: System<D>, s: System<D>, i: nat)
    requires Inv(s) && Predicted(s0, s)
    ensures var s' := s.(group := Update(s.group, i).0);
            && Inv(s') && Predicted(s0, s') && s' == Step(s, CallUpdate(i))
            && (s.outstanding.None? && s.lastOperation == At(i) ==> UpdateWasCalled(s'))
  {
    UpdateStep(s, i);
    CallUpdatePredicted(s0, s, i);
    if s.outstanding.None? && s.lastOperation == At(i) { UpdateAllowsWaiting(s, i); }
  }

  /** Some updates have been taken out of the queues, and none of them was let through. */
  ghost predicate AllDiscarded<D>(s: System<D>, s': System<D>) {
    && s'.arrived == s.arrived && s'.delivered == s.delivered
    && |s.outcomes| <= |s'.outcomes| <= |s'.arrived|
    && s'.outcomes[..|s.outcomes|] == s.outcomes
    && forall k :: |s.outcomes| <= k < |s'.outcomes| ==> !s'.outcomes[k]
  }

  /** The next update which is let through has been delivered to element r, after dropping those before; or there is
      none, and all updates have been dropped. */
  ghost predicate NextVisible<D>(s: System<D>, s': System<D>, r: Option<nat>) {
    match r
    case None => AllDiscarded(s, s') && s'.notifications == [] && |s'.outcomes| == |s'.arrived|
    case Some(i) =>
      && 0 < |s'.outcomes| <= |s'.arrived| && s'.arrived == s.arrived
      && var n := |s'.outcomes| - 1;
         && AllDiscarded(s, s'.(outcomes := s'.outcomes[..n], delivered := s.delivered))
         && s'.outcomes[n] && s'.delivered == s.delivered + [s'.arrived[n]]
         && i == s'.arrived[n].0 && i < |s'.group.elements| && s'.group.elements[i].user == s'.arrived[n].1
  }

  /** One update out of the queues. */
  ghost predicate TakenOne<D>(s: System<D>, s': System<D>, ok: bool) {
    && |s.outcomes| < |s.arrived| && s'.arrived == s.arrived && s'.outcomes == s.outcomes + [ok]
    && var (i, u) := s.arrived[|s.outcomes|];
       && i < |s'.group.elements|
       && (ok ==> s'.group.elements[i].user == u)
       && s'.delivered == if ok then s.delivered + [(i, u)] else s.delivered
  }

  lemma AcceptTakesOne<D>(s: System<D>)
    requires Inv(s) && s.outstanding.Some?
    ensures var (s', ok) := Accept(s);
            TakenOne(s, s', ok) && s.outstanding.value == s.arrived[|s.outcomes|].0
  {
    AcceptStep(s);
    var i := Oldest(s);
    assert s.arrived[|s.outcomes|] == InFlight(s)[0] == (i, s.queues[i][0]);
    if !s.evaluated { EvaluateFrame(s); }
  }

  /** accept(), on states. */
  lemma AcceptVisible<D>(s0: System<D>, s: System<D>)
    requires Inv(s) && Predicted(s0, s) && s.outstanding.Some?
    ensures var (s', ok) := Accept(s);
            && Inv(s') && Predicted(s0, s') && FollowsArrivals(s0, s') && s'.outstanding.None?
            && s'.notifications == s.notifications && (!ok ==> UpdateWasCalled(s'))
            && TakenOne(s, s', ok) && s.outstanding.value == s.arrived[|s.outcomes|].0
  {
    AcceptStep(s);
    AcceptKeepsNotifications(s);
    AcceptPredicted(s0, s);
    AcceptTakesOne(s);
    hide Predicted, TakenOne, FollowsArrivals, Core, Accept;
    PredictedFollows(s0, Accept(s).0);
  }

  lemma AcceptKeepsNotifications<D>(s: System<D>)
    requires WellFormed(s) && s.outstanding.Some?
    ensures Accept(s).0.notifications == s.notifications
  {
    if !s.evaluated { EvaluateFrame(s); }
  }

  /** The same histories, up to which notification is outstanding. */
  ghost predicate SameHistory<D>(s: System<D>, s': System<D>) {
    s'.arrived == s.arrived && s'.outcomes == s.outcomes && s'.delivered == s.delivered
  }

  lemma WaitKeepsHistory<D>(s: System<D>)
    requires s.lastOperation.At? ==> s.lastOperation.index < |s.group.elements|
    requires s.notifications != []
    ensures SameHistory(s, WaitAny(s).0)
    ensures WaitAny(s).1 ==>
              WaitAny(s).0.outstanding == Some(s.notifications[0]) &&
              WaitAny(s).0.notifications == s.notifications[1..]
  {
  }

  lemma VisibleAfterWait<D>(s: System<D>, s1: System<D>, s': System<D>, ok: bool)
    requires SameHistory(s, s1) && TakenOne(s1, s', ok)
    ensures if ok then NextVisible(s, s', Some(s.arrived[|s.outcomes|].0)) else AllDiscarded(s, s')
  {
  }

  /** waitAny() and accept(), on states. */
  lemma WaitAccept<D>(s0: System<D>, s: System<D>)
    requires Inv(s) && Predicted(s0, s) && s.outstanding.None? && UpdateWasCalled(s) && s.notifications != []
    ensures var (s1, ready) := WaitAny(s);
            && Inv(s1) && s1.outstanding.Some?
            && var (s', ok) := Accept(s1);
               && Inv(s') && Predicted(s0, s') && FollowsArrivals(s0, s') && s'.outstanding.None?
               && |s'.notifications| < |s.notifications|
               && if ok then NextVisible(s, s', Some(s.notifications[0]))
                  else UpdateWasCalled(s') && AllDiscarded(s, s')
  {
    WaitAnyStep(s);
    WaitAnyPredicted(s0, s);
    WaitKeepsHistory(s);
    var s1 := WaitAny(s).0;
    hide Core, Predicted, UpdateWasCalled, FollowsArrivals, NextVisible, AllDiscarded, TakenOne, WaitAny;
    AcceptVisible(s0, s1);
    VisibleAfterWait(s, s1, Accept(s1).0, Accept(s1).1);
  }

  lemma ConsumeDiscards<D>(s: System<D>)
    requires WellFormed(s) && s.notifications != [] && s.outstanding.None? && !Evaluate(s).1
    ensures var s1 := Consume(Evaluate(s).0, false);
            AllDiscarded(s, s1) && |s1.notifications| < |s.notifications|
  {
    EvaluateFrame(s);
  }

  lemma AllDiscardedTransitive<D>(s: System<D>, s1: System<D>, s2: System<D>)
    requires AllDiscarded(s, s1) && AllDiscarded(s1, s2)
    ensures AllDiscarded(s, s2)
  {
    assert s2.outcomes[..|s1.outcomes|][..|s.outcomes|] == s2.outcomes[..|s.outcomes|];
  }

  lemma {:induction false} PeekHistory<D>(s: System<D>)
    requires WellFormed(s) && s.outstanding.None?
    ensures AllDiscarded(s, Peek(s))
    decreases |s.notifications|
  {
    if s.notifications != [] {
      var (s1, ok) := Evaluate(s);
      if ok {
        EvaluateFrame(s);
      } else {
        ConsumeDiscards(s);
        var s2 := Consume(s1, false);
        hide AllDiscarded, Evaluate;
        PeekHistory(s2);
        AllDiscardedTransitive(s, s2, Peek(s2));
      }
    }
  }

  /** Without a pending notification everything has been taken out of the queues. */
  lemma AllTaken<D>(s: System<D>)
    requires Paired(s) && s.outstanding.None?
    ensures s.notifications == [] ==> |s.outcomes| == |s.arrived|
  {
  }

  lemma DiscardedThenVisible<D>(s: System<D>, c: System<D>, s': System<D>, i: nat)
    requires AllDiscarded(s, c) && NextVisible(c, s', Some(i))
    ensures NextVisible(s, s', Some(i))
  {
  }

  /** waitAnyNonBlocking() and accept(), on states. */
  lemma PollAccept<D>(s0: System<D>, s: System<D>)
    requires Inv(s) && Predicted(s0, s) && s.outstanding.None? && UpdateWasCalled(s)
    ensures var s1 := WaitAnyNonBlocking(s).0;
            && Inv(s1)
            && if s1.outstanding.None? then
                 Predicted(s0, s1) && FollowsArrivals(s0, s1) && NextVisible(s, s1, None)
               else
                 var (s', ok) := Accept(s1);
                 && Inv(s') && Predicted(s0, s') && FollowsArrivals(s0, s') && s'.outstanding.None?
                 && NextVisible(s, s', Some(s1.outstanding.value))
  {
    PollStep(s);
    PollPredicted(s0, s);
    PollHistory(s);
    var s1 := WaitAnyNonBlocking(s).0;
    hide Core, Predicted, UpdateWasCalled, FollowsArrivals, AllDiscarded, TakenOne, WaitAnyNonBlocking;
    if s1.outstanding.None? {
      PredictedFollows(s0, s1);
    } else {
      AcceptVisible(s0, s1);
      EvaluatedIsAccepted(s1);
      DiscardedThenTaken(s, s1, Accept(s1).0);
    }
  }

  lemma PollHistory<D>(s: System<D>)
    requires Inv(s) && s.outstanding.None? && UpdateWasCalled(s)
    ensures var s1 := WaitAnyNonBlocking(s).0;
            && AllDiscarded(s, s1)
            && if s1.outstanding.None? then s1.notifications == [] && |s1.outcomes| == |s1.arrived| else s1.evaluated
  {
    PeekStep(s);
    PeekHistory(s);
    var p := Peek(s);
    if p.notifications == [] {
      AllTaken(p);
    } else {
      WaitKeepsHistory(p);
      WaitAnyStep(p);
      SameHistoryDiscarded(s, p, WaitAny(p).0);
    }
  }

  lemma SameHistoryDiscarded<D>(s: System<D>, p: System<D>, s1: System<D>)
    requires AllDiscarded(s, p) && SameHistory(p, s1)
    ensures AllDiscarded(s, s1)
  {
  }

  /** What waitAnyNonBlocking() hands out has passed its read callback. */
  lemma EvaluatedIsAccepted<D>(s: System<D>)
    requires Inv(s) && s.outstanding.Some? && s.evaluated
    ensures Accept(s).1
  {
    AcceptStep(s);
  }

  lemma DiscardedThenTaken<D>(s: System<D>, c: System<D>, s': System<D>)
    requires AllDiscarded(s, c) && TakenOne(c, s', true)
    ensures NextVisible(s, s', Some(c.arrived[|c.outcomes|].0))
  {
  }

  /** waitAnyNonBlocking() hands out an update which will be accepted, after dropping those before; or there is none,
      and everything has been taken out of the queues. */
  lemma PollFinds<D>(s: System<D>)
    requires Inv(s) && Allowed(s, Poll)
    ensures var s' := Step(s, Poll);
            && AllDiscarded(s, s')
            && if s'.outstanding.Some? then Accept(s').1
               else s'.notifications == [] && |s'.outcomes| == |s'.arrived|
  {
    PollStep(s);
    PollHistory(s);
    if Step(s, Poll).outstanding.Some? { EvaluatedIsAccepted(Step(s, Poll)); }
  }

  // ----- arrivals

  /** What the producers push in these events. */
  function Arrivals<D>(events: seq<Event<D>>): seq<(nat, Sample<D>)> {
    if events == [] then []
    else (if events[0].Arrive? then [(events[0].index, events[0].update)] else []) + Arrivals(events[1..])
  }

  lemma StepArrivals<D>(s: System<D>, e: Event<D>)
    requires Inv(s) && Allowed(s, e)
    ensures Step(s, e).arrived == s.arrived + if e.Arrive? then [(e.index, e.update)] else []
  {
    match e
    case Arrive(_, _) =>
    case Wait => WaitKeepsHistory(s);
    case Poll => PollHistory(s);
    case AcceptLast => AcceptTakesOne(s);
    case CallUpdate(_) =>
  }

  ghost predicate Next<D>(s: System<D>, e: Event<D>, s': System<D>) {
    Inv(s) && Allowed(s, e) && s' == Step(s, e) && Inv(s')
  }

  lemma {:induction false} LegalNext<D>(s: System<D>, e: Event<D>, s': System<D>, es: seq<Event<D>>)
    requires Next(s, e, s') && Legal(s', es)
    ensures Inv(s) && Legal(s, [e] + es) && Run(s, [e] + es) == Run(s', es)
  {
    assert ([e] + es)[1..] == es;
  }

  lemma RunFirst<D>(s: System<D>, events: seq<Event<D>>) returns (s': System<D>)
    requires Inv(s) && Legal(s, events) && events != []
    ensures Next(s, events[0], s') && Inv(s') && Legal(s', events[1..]) && Run(s, events) == Run(s', events[1..])
  {
    s' := Step(s, events[0]);
  }

  lemma {:induction false} NoArrivals<D>(a: seq<(nat, Sample<D>)>, events: seq<Event<D>>)
    requires events == []
    ensures a + Arrivals(events) == a
  {
  }

  lemma {:induction false} FirstArrival<D>(a: seq<(nat, Sample<D>)>, events: seq<Event<D>>)
    requires events != []
    ensures a + Arrivals(events) ==
            a + (if events[0].Arrive? then [(events[0].index, events[0].update)] else []) + Arrivals(events[1..])
  {
  }

  /** The group knows of exactly what has been pushed. */
  lemma {:induction false} RunArrivals<D>(s: System<D>, events: seq<Event<D>>)
    requires Inv(s) && Legal(s, events)
    ensures Run(s, events).arrived == s.arrived + Arrivals(events)
    decreases |events|
  {
    if events == [] {
      NoArrivals(s.arrived, events);
    } else {
      hide Arrivals;
      StepArrivals(s, events[0]);
      RunArrivals(Step(s, events[0]), events[1..]);
      FirstArrival(s.arrived, events);
    }
  }

  // ----- catching up

  /** Accepting what has been handed out. */
  lemma AcceptGoesOn<D>(s: System<D>) returns (s': System<D>)
    requires Inv(s) && s.outstanding.Some?
    ensures Next(s, AcceptLast, s') && s'.outstanding.None?
    ensures s'.arrived == s.arrived && |s'.outcomes| == |s.outcomes| + 1 && |s'.outcomes| <= |s'.arrived|
  {
    AcceptStep(s);
    AcceptTakesOne(s);
    s' := Step(s, AcceptLast);
  }

  /** Telling the group about the element accepted last, so that waiting is possible. */
  lemma UpdateGoesOn<D>(s: System<D>) returns (e: Event<D>, s': System<D>)
    requires Inv(s) && s.outstanding.None?
    ensures e.CallUpdate? && Next(s, e, s') && UpdateWasCalled(s')
    ensures s'.outstanding == s.outstanding && s'.notifications == s.notifications && SameHistory(s, s')
  {
    e := CallUpdate(if s.lastOperation.At? then s.lastOperation.index else 0);
    if s.lastOperation.At? { UpdateAllowsWaiting(s, s.lastOperation.index); }
    s' := Step(s, e);
  }

  lemma WaitGoesOn<D>(s: System<D>) returns (s': System<D>)
    requires Inv(s) && s.outstanding.None? && s.notifications != [] && UpdateWasCalled(s)
    ensures Next(s, Wait, s') && s'.outstanding.Some? && SameHistory(s, s')
  {
    WaitAnyStep(s);
    WaitKeepsHistory(s);
    s' := Step(s, Wait);
  }

  /** From every state the application can take everything out of the queues which has arrived. */
  lemma {:induction false} CatchUp<D>(s: System<D>) returns (events: seq<Event<D>>, s': System<D>)
    requires Inv(s)
    ensures Legal(s, events) && s' == Run(s, events)
    ensures s'.arrived == s.arrived && |s'.outcomes| == |s'.arrived| && s'.outstanding.None?
    decreases |s.arrived| - |s.outcomes|, if s.outstanding.Some? then 0 else 1
  {
    hide Next;
    if s.outstanding.Some? {
      var s1 := AcceptGoesOn(s);
      IsNext(s, AcceptLast, s1);
      var es;
      es, s' := CatchUp(s1);
      LegalNext(s, AcceptLast, s1, es);
      events := [AcceptLast] + es;
    } else if s.notifications == [] {
      AllTaken(s);
      events, s' := [], s;
    } else {
      var e, s1 := UpdateGoesOn(s);
      IsNext(s, e, s1);
      var s2 := WaitGoesOn(s1);
      IsNext(s1, Wait, s2);
      var es;
      es, s' := CatchUp(s2);
      LegalNext(s1, Wait, s2, es);
      LegalNext(s, e, s1, [Wait] + es);
      events := [e] + ([Wait] + es);
    }
  }

  lemma IsNext<D>(s: System<D>, e: Event<D>, s': System<D>)
    requires Next(s, e, s')
    ensures Inv(s) && Inv(s')
  {
  }

  lemma Regrouped<X>(es: seq<X>, fs: seq<X>)
    requires es != []
    ensures es + fs == [es[0]] + (es[1..] + fs)
  {
  }

  lemma {:induction false} RunConcat<D>(s: System<D>, es: seq<Event<D>>, fs: seq<Event<D>>)
    requires Inv(s) && Legal(s, es) && Legal(Run(s, es), fs)
    ensures Legal(s, es + fs) && Run(s, es + fs) == Run(Run(s, es), fs)
    decreases |es|
  {
    if es == [] {
      assert es + fs == fs;
    } else {
      hide Inv, Next, Allowed, Step, Legal, Run;
      var s1 := RunFirst(s, es);
      RunConcat(s1, es[1..], fs);
      LegalNext(s, es[0], s1, es[1..] + fs);
      Regrouped(es, fs);
    }
  }

  lemma {:induction false} FirstStep<D>(s: System<D>, e: Event<D>, es: seq<Event<D>>)
    requires Inv(s) && Allowed(s, e) && Legal(Step(s, e), es)
    ensures Legal(s, [e] + es) && Run(s, [e] + es) == Run(Step(s, e), es)
  {
    assert ([e] + es)[1..] == es;
  }

  lemma {:induction false} ProjectionMembers<D>(f: seq<(nat, Sample<D>)>, j: nat, u: Sample<D>)
    requires u in Projection(f, j)
    ensures (j, u) in f
  {
    if f[0] != (j, u) { ProjectionMembers(f[1..], j, u); }
  }

  /** An update which is not older than what has arrived for its element. */
  ghost predicate InOrder<D>(s0: System<D>, arrived: seq<(nat, Sample<D>)>, i: nat, u: Sample<D>) {
    && i < |s0.group.elements| && u.version > 0 && s0.group.elements[i].user.version <= u.version
    && forall x | x in arrived :: x.0 == i ==> x.1.version <= u.version
  }

  lemma MayArrive<D>(s0: System<D>, s: System<D>, i: nat, u: Sample<D>)
    requires Initial(s0) && Inv(s) && Predicted(s0, s) && InOrder(s0, s.arrived, i, u)
    ensures Allowed(s, Arrive(i, u))
  {
    forall x | x in s.logs[i] || x in s.queues[i]
      ensures x.version <= u.version
    {
      var m := |s.outcomes| + (if s.evaluated then 1 else 0);
      if x in s.queues[i] {
        ProjectionMembers(InFlight(s), i, x);
        assert (i, x) in s.arrived;
      } else if x !in s0.logs[i] {
        ProjectionMembers(s.arrived[..m], i, x);
        assert (i, x) in s.arrived;
      }
    }
  }

  /** Whatever has happened before, an update which does not go back in version can arrive, and the application can then
      see everything it should see, this update included. */
  lemma EverythingIsSeen<D>(s0: System<D>, done: seq<Event<D>>, i: nat, u: Sample<D>) returns (events: seq<Event<D>>)
    requires Initial(s0) && Inv(s0) && Legal(s0, done) && InOrder(s0, Run(s0, done).arrived, i, u)
    ensures Legal(s0, done + ([Arrive(i, u)] + events))
    ensures var s := Run(s0, done + ([Arrive(i, u)] + events));
            && s.arrived == Run(s0, done).arrived + [(i, u)]
            && Complete(s0, s.arrived) && s.delivered == Visible(s0, s.arrived)
  {
    var s := Run(s0, done);
    InitialPredicted(s0);
    RunPredicted(s0, s0, done);
    MayArrive(s0, s, i, u);
    StepArrivals(s, Arrive(i, u));
    hide Initial, Predicted, Step, Allowed, Inv;
    var s';
    events, s' := CatchUp(Step(s, Arrive(i, u)));
    FirstStep(s, Arrive(i, u), events);
    RunConcat(s0, done, [Arrive(i, u)] + events);
    OutcomesFollowArrivals(s0, done + ([Arrive(i, u)] + events));
    assert s'.arrived[..|s'.outcomes|] == s'.arrived;
  }
}

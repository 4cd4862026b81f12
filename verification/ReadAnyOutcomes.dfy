/**
 What a ReadAnyGroup lets through is a function of the arrivals: neither the moments at which the application waits,
 polls and accepts nor the updates still in the queues play a role.
 */
module ReadAnyOutcomes {
  import opened Samples
  import opened HistoryRing
  import opened HistorizedMatcher
  import opened ReadAnyGroup

  // ----- the reference: arrivals only

  ghost predicate Complete<D>(s0: System<D>, a: seq<(nat, Sample<D>)>) {
    && |s0.logs| == |s0.group.elements|
    && forall k :: 0 <= k < |a| ==> a[k].0 < |s0.group.elements|
  }

  /** Whether update x, arriving after the updates `before`, should be let through: if it belongs to an ordinary
      element, or if its version is among those all other grouped elements remember, everything before it taken into
      account. */
  ghost predicate Expected<D>(s0: System<D>, before: seq<(nat, Sample<D>)>, x: (nat, Sample<D>))
    requires Complete(s0, before + [x])
  {
    var es := s0.group.elements;
    assert (before + [x])[|before|] == x;
    es[x.0].Grouped? ==>
      forall j :: 0 <= j < |es| && j != x.0 && es[j].Grouped? ==>
        Remembers(s0.logs[j] + Projection(before, j), |es[j].ring.history|, x.1.version)
  }

  /** The updates the application should see, in order. */
  ghost function Visible<D>(s0: System<D>, a: seq<(nat, Sample<D>)>): seq<(nat, Sample<D>)>
    requires Complete(s0, a)
  {
    if a == [] then []
    else
      var n := |a| - 1;
      assert a == a[..n] + [a[n]];
      Visible(s0, a[..n]) + (if Expected(s0, a[..n], a[n]) then [a[n]] else [])
  }

  // ----- the connection to a state of a run

  /** Groups of the same layout. */
  ghost predicate SameKinds<D>(es: seq<Element<D>>, es': seq<Element<D>>) {
    && |es'| == |es|
    && forall j :: 0 <= j < |es| ==>
         es'[j].Grouped? == es[j].Grouped? && (es[j].Grouped? ==> |es'[j].ring.history| == |es[j].ring.history|)
  }

  /** The first m arrivals have been passed to their elements. */
  ghost predicate Received<D>(s0: System<D>, s: System<D>, m: nat) {
    && m <= |s.arrived| && Complete(s0, s.arrived)
    && SameKinds(s0.group.elements, s.group.elements)
    && |s.logs| == |s0.logs|
    && forall j :: 0 <= j < |s.logs| ==> s.logs[j] == s0.logs[j] + Projection(s.arrived[..m], j)
  }

  /** The outcome of the k-th arrival is the expected one. */
  ghost predicate Judged<D>(s0: System<D>, s: System<D>, k: nat, ok: bool)
    requires Complete(s0, s.arrived) && k < |s.arrived|
  {
    assert s.arrived[..k] + [s.arrived[k]] == s.arrived[..k + 1];
    ok == Expected(s0, s.arrived[..k], s.arrived[k])
  }

  ghost predicate Predicted<D>(s0: System<D>, s: System<D>) {
    && Received(s0, s, |s.outcomes| + (if s.evaluated then 1 else 0))
    && (forall k :: 0 <= k < |s.outcomes| ==> Judged(s0, s, k, s.outcomes[k]))
    && (s.evaluated ==> Judged(s0, s, |s.outcomes|, true))
  }

  // ----- steps

  lemma ReceiveKeepsLength<D>(r: Ring<D>, u: Sample<D>)
    ensures |Receive(r, u).history| == |r.history|
  {
  }

  lemma EvaluateKinds<D>(s: System<D>)
    requires WellFormed(s) && Taken(s.outstanding) + s.notifications != []
    ensures SameKinds(s.group.elements, Evaluate(s).0.group.elements)
  {
    var i := Oldest(s);
    var u := s.queues[i][0];
    if s.group.elements[i].Grouped? {
      ReadCallbackFrame(s.group, i, u);
      ReceiveKeepsLength(s.group.elements[i].ring, u);
    }
  }

  /** The read callback takes the oldest update in flight, and its verdict is the expected one. */
  lemma EvaluatePredicted<D>(s0: System<D>, s: System<D>)
    requires Inv(s) && !s.evaluated && Taken(s.outstanding) + s.notifications != [] && Predicted(s0, s)
    ensures var (s1, ok) := Evaluate(s);
            Received(s0, s1, |s.outcomes| + 1) && Judged(s0, s1, |s.outcomes|, ok)
  {
    assert InFlight(s) != [];
    EvaluateKinds(s);
    EvaluateReceives(s0, s);
    EvaluateJudged(s0, s);
    hide Inv, Evaluate, SameKinds, Expected;
    OneMoreReceived(s0, s, Evaluate(s).0, |s.outcomes|, Evaluate(s).1);
  }

  lemma OneMoreReceived<D>(s0: System<D>, s: System<D>, s1: System<D>, m: nat, ok: bool)
    requires Received(s0, s, m) && m < |s.arrived| && Judged(s0, s, m, ok)
    requires SameKinds(s.group.elements, s1.group.elements) && s1.arrived == s.arrived && |s1.logs| == |s0.logs|
    requires forall j :: 0 <= j < |s1.logs| ==> s1.logs[j] == s0.logs[j] + Projection(s1.arrived[..m + 1], j)
    ensures Received(s0, s1, m + 1) && Judged(s0, s1, m, ok)
  {
    hide Expected;
  }

  lemma EvaluateJudged<D>(s0: System<D>, s: System<D>)
    requires Inv(s) && !s.evaluated && Taken(s.outstanding) + s.notifications != []
    requires Received(s0, s, |s.outcomes|) && |s.outcomes| < |s.arrived|
    ensures Judged(s0, s, |s.outcomes|, Evaluate(s).1)
  {
    var i := Oldest(s);
    assert s.arrived[|s.outcomes|] == InFlight(s)[0] == (i, s.queues[i][0]);
    if s.group.elements[i].Grouped? { LetThroughIff(s); }
  }

  lemma EvaluateReceives<D>(s0: System<D>, s: System<D>)
    requires WellFormed(s) && Taken(s.outstanding) + s.notifications != [] && Received(s0, s, |s.outcomes|)
    ensures var s1 := Evaluate(s).0;
            && |s1.logs| == |s0.logs|
            && forall j :: 0 <= j < |s1.logs| ==>
              s1.logs[j] == s0.logs[j] + Projection(s1.arrived[..|s.outcomes| + 1], j)
  {
    var m, i := |s.outcomes|, Oldest(s);
    var x := (i, s.queues[i][0]);
    assert s.arrived[m] == InFlight(s)[0] == x;
    assert s.arrived[..m + 1] == s.arrived[..m] + [x];
    forall j | 0 <= j < |s.logs|
      ensures Evaluate(s).0.logs[j] == s0.logs[j] + Projection(s.arrived[..m + 1], j)
    {
      ProjectionSnoc(s.arrived[..m], x, j);
    }
  }

  /** Groups, queues and notifications aside, what is known about a state concerns its history variables only. */
  lemma ConsumePredicted<D>(s0: System<D>, s: System<D>, s1: System<D>, ok: bool, s': System<D>)
    requires Predicted(s0, s) && |s.outcomes| < |s.arrived|
    requires s1.arrived == s.arrived && Received(s0, s1, |s.outcomes| + 1) && Judged(s0, s1, |s.outcomes|, ok)
    requires s'.arrived == s.arrived && s'.outcomes == s.outcomes + [ok] && s'.logs == s1.logs && !s'.evaluated
    requires SameKinds(s1.group.elements, s'.group.elements)
    ensures Predicted(s0, s')
  {
    forall k | 0 <= k < |s'.outcomes|
      ensures Judged(s0, s', k, s'.outcomes[k])
    {
      if k < |s.outcomes| { assert Judged(s0, s, k, s.outcomes[k]); }
    }
  }

  /** The restart loop comes to an update which will be let through. */
  lemma FoundPredicted<D>(s0: System<D>, s: System<D>)
    requires Inv(s) && !s.evaluated && Taken(s.outstanding) + s.notifications != [] && Predicted(s0, s)
    requires Evaluate(s).1
    ensures Predicted(s0, Evaluate(s).0.(evaluated := true))
  {
    EvaluatePredicted(s0, s);
    hide Inv, Evaluate;
    MarkPredicted(s0, s, Evaluate(s).0);
  }

  lemma MarkPredicted<D>(s0: System<D>, s: System<D>, s1: System<D>)
    requires Predicted(s0, s) && !s.evaluated && |s.outcomes| < |s.arrived|
    requires s1.arrived == s.arrived && s1.outcomes == s.outcomes
    requires Received(s0, s1, |s.outcomes| + 1) && Judged(s0, s1, |s.outcomes|, true)
    ensures Predicted(s0, s1.(evaluated := true))
  {
    var s' := s1.(evaluated := true);
    forall k | 0 <= k < |s'.outcomes|
      ensures Judged(s0, s', k, s'.outcomes[k])
    {
      assert Judged(s0, s, k, s.outcomes[k]);
    }
  }

  /** The restart loop removes an update. */
  lemma DiscardPredicted<D>(s0: System<D>, s: System<D>)
    requires Inv(s) && !s.evaluated && s.outstanding.None? && s.notifications != [] && Predicted(s0, s)
    requires !Evaluate(s).1
    ensures var s' := Consume(Evaluate(s).0, false);
            Inv(s') && Predicted(s0, s') && s'.outstanding.None? && !s'.evaluated
  {
    var s1 := Evaluate(s).0;
    EvaluatePredicted(s0, s);
    DiscardStep(s);
    hide Core, Evaluate;
    ConsumePredicted(s0, s, s1, false, Consume(s1, false));
  }

  lemma {:induction false} PeekPredicted<D>(s0: System<D>, s: System<D>)
    requires Inv(s) && s.outstanding.None? && !s.evaluated && Predicted(s0, s)
    ensures Predicted(s0, Peek(s))
    decreases |s.notifications|
  {
    if s.notifications != [] {
      var (s1, ok) := Evaluate(s);
      if ok {
        FoundPredicted(s0, s);
      } else {
        DiscardPredicted(s0, s);
        hide Core, Predicted;
        PeekPredicted(s0, Consume(s1, false));
      }
    }
  }

  lemma WaitAnyPredicted<D>(s0: System<D>, s: System<D>)
    requires Core(s) && UpdateWasCalled(s) && s.outstanding.None? && s.notifications != [] && Predicted(s0, s)
    ensures Predicted(s0, WaitAny(s).0)
  {
    WaitAnyStep(s);
    hide Core, Inv, UpdateWasCalled, HandlePreRead;
    FlagsKeepPrediction(s0, s, WaitAny(s).0);
  }

  lemma FlagsKeepPrediction<D>(s0: System<D>, s: System<D>, s': System<D>)
    requires Predicted(s0, s) && SameButFlags(s.group.elements, s'.group.elements)
    requires s'.logs == s.logs && s'.arrived == s.arrived && s'.outcomes == s.outcomes && s'.evaluated == s.evaluated
    ensures Predicted(s0, s')
  {
    forall k | 0 <= k < |s.outcomes|
      ensures Judged(s0, s', k, s.outcomes[k])
    {
      assert Judged(s0, s, k, s.outcomes[k]);
    }
    if s.evaluated { assert Judged(s0, s, |s.outcomes|, true); }
  }

  lemma PostReadKinds<D>(g: Group<D>, i: nat)
    requires i < |g.elements| && IndicesValid(g.elements)
    ensures SameKinds(g.elements, PostRead(g, i).elements)
  {
  }

  lemma AcceptPredicted<D>(s0: System<D>, s: System<D>)
    requires Inv(s) && s.outstanding.Some? && Predicted(s0, s)
    ensures Predicted(s0, Accept(s).0)
  {
    assert InFlight(s) != [];
    if !s.evaluated { EvaluatePredicted(s0, s); }
    var (s1, ok) := if s.evaluated then (s, true) else Evaluate(s);
    if ok { PostReadKinds(s1.group, Oldest(s)); }
    ConsumePredicted(s0, s, s1, ok, Accept(s).0);
  }

  lemma ArrivalPredicted<D>(s0: System<D>, s: System<D>, x: (nat, Sample<D>), s': System<D>)
    requires Predicted(s0, s) && x.0 < |s0.group.elements|
    requires s'.arrived == s.arrived + [x] && s'.group == s.group && s'.logs == s.logs
    requires s'.outcomes == s.outcomes && s'.evaluated == s.evaluated
    ensures Predicted(s0, s')
  {
    assert forall k :: 0 <= k <= |s.arrived| ==> s'.arrived[..k] == s.arrived[..k];
    forall k, ok | 0 <= k < |s.arrived| && Judged(s0, s, k, ok)
      ensures Judged(s0, s', k, ok)
    {
      assert s'.arrived[k] == s.arrived[k];
    }
  }

  lemma PushPredicted<D>(s0: System<D>, s: System<D>, i: nat, u: Sample<D>)
    requires Inv(s) && i < |s.queues| && Predicted(s0, s)
    ensures Predicted(s0, Push(s, i, u))
  {
    assert |s.queues| == |s.group.elements| == |s0.group.elements|;
    hide Inv, Predicted;
    ArrivalPredicted(s0, s, (i, u), Push(s, i, u));
  }

  lemma PollPredicted<D>(s0: System<D>, s: System<D>)
    requires Inv(s) && UpdateWasCalled(s) && s.outstanding.None? && Predicted(s0, s)
    ensures Predicted(s0, WaitAnyNonBlocking(s).0)
  {
    PeekPredicted(s0, s);
    PeekStep(s);
    if Peek(s).notifications != [] {
      hide Predicted;
      WaitAnyPredicted(s0, Peek(s));
    }
  }

  lemma CallUpdatePredicted<D>(s0: System<D>, s: System<D>, i: nat)
    requires Predicted(s0, s)
    ensures Predicted(s0, s.(group := Update(s.group, i).0))
  {
    var s' := s.(group := Update(s.group, i).0);
    assert forall k, ok :: 0 <= k < |s.arrived| && Judged(s0, s, k, ok) ==> Judged(s0, s', k, ok);
  }

  lemma StepPredicted<D>(s0: System<D>, s: System<D>, e: Event<D>)
    requires Inv(s) && Allowed(s, e) && Predicted(s0, s)
    ensures Predicted(s0, Step(s, e))
  {
    hide Predicted;
    match e
    case Arrive(i, u) => PushPredicted(s0, s, i, u);
    case Wait => WaitAnyPredicted(s0, s);
    case Poll => PollPredicted(s0, s);
    case AcceptLast => AcceptPredicted(s0, s);
    case CallUpdate(i) => CallUpdatePredicted(s0, s, i);
  }

  lemma {:induction false} RunPredicted<D>(s0: System<D>, s: System<D>, events: seq<Event<D>>)
    requires Inv(s) && Legal(s, events) && Predicted(s0, s)
    ensures Predicted(s0, Run(s, events))
    decreases |events|
  {
    if events != [] {
      StepPredicted(s0, s, events[0]);
      RunPredicted(s0, Step(s, events[0]), events[1..]);
    }
  }

  lemma InitialPredicted<D>(s0: System<D>)
    requires Initial(s0)
    ensures Predicted(s0, s0)
  {
  }

  // ----- main theorems

  lemma {:induction false} LetThroughIsVisible<D>(s0: System<D>, s: System<D>, outcomes: seq<bool>)
    requires Complete(s0, s.arrived) && |outcomes| <= |s.arrived|
    requires forall k :: 0 <= k < |outcomes| ==> Judged(s0, s, k, outcomes[k])
    ensures LetThrough(s.arrived, outcomes) == Visible(s0, s.arrived[..|outcomes|])
  {
    if outcomes != [] {
      var n := |outcomes| - 1;
      LetThroughIsVisible(s0, s, outcomes[..n]);
      assert s.arrived[..n + 1][..n] == s.arrived[..n];
      assert Judged(s0, s, n, outcomes[n]);
    }
  }

  ghost predicate FollowsArrivals<D>(s0: System<D>, s: System<D>) {
    && |s.outcomes| <= |s.arrived| && Complete(s0, s.arrived)
    && (forall k :: 0 <= k < |s.outcomes| ==> Judged(s0, s, k, s.outcomes[k]))
    && s.delivered == Visible(s0, s.arrived[..|s.outcomes|])
  }

  lemma PredictedFollows<D>(s0: System<D>, s: System<D>)
    requires Inv(s) && Predicted(s0, s)
    ensures FollowsArrivals(s0, s)
  {
    LetThroughIsVisible(s0, s, s.outcomes);
  }

  /** In every reachable state, each update taken out of the queues has been let through exactly if the arrivals up to
      it say so, and what the application has seen is the visible part of the arrivals. */
  lemma {:induction false} OutcomesFollowArrivals<D>(s0: System<D>, events: seq<Event<D>>)
    requires Initial(s0)
    ensures Inv(s0)
    ensures Legal(s0, events) ==> FollowsArrivals(s0, Run(s0, events))
  {
    InitialInv(s0);
    InitialPredicted(s0);
    hide Initial, Predicted;
    if Legal(s0, events) {
      RunPredicted(s0, s0, events);
      PredictedFollows(s0, Run(s0, events));
    }
  }

  /** Two applications on the same group which receive the same updates see the same: however they mix waiting, polling
      and accepting, the one which has taken fewer updates out of the queues has seen a prefix of what the other one has
      seen. */
  lemma {:induction false} ApplicationsSeeTheSame<D>(s0: System<D>, events: seq<Event<D>>, events': seq<Event<D>>)
    requires Initial(s0) && Inv(s0) && Legal(s0, events) && Legal(s0, events')
    requires var s, s' := Run(s0, events), Run(s0, events');
             |s.outcomes| <= |s'.outcomes| && (s.arrived <= s'.arrived || s'.arrived <= s.arrived)
    ensures var s, s' := Run(s0, events), Run(s0, events');
            s.outcomes <= s'.outcomes && s.delivered <= s'.delivered
  {
    OutcomesFollowArrivals(s0, events);
    OutcomesFollowArrivals(s0, events');
    hide Initial, FollowsArrivals;
    SameArrivalsSameView(s0, Run(s0, events), Run(s0, events'));
  }

  lemma SameArrivalsSameView<D>(s0: System<D>, s: System<D>, s': System<D>)
    requires FollowsArrivals(s0, s) && FollowsArrivals(s0, s')
    requires |s.outcomes| <= |s'.outcomes| && (s.arrived <= s'.arrived || s'.arrived <= s.arrived)
    ensures s.outcomes <= s'.outcomes && s.delivered <= s'.delivered
  {
    var n, n' := |s.outcomes|, |s'.outcomes|;
    assert forall k :: 0 <= k <= n ==> s.arrived[..k] == s'.arrived[..k];
    forall k | 0 <= k < n
      ensures s.outcomes[k] == s'.outcomes[k]
    {
      assert Judged(s0, s, k, s.outcomes[k]) && Judged(s0, s', k, s'.outcomes[k]);
    }
    VisiblePrefix(s0, s'.arrived[..n'], n);
    assert s'.arrived[..n'][..n] == s.arrived[..n];
  }

  lemma {:induction false} VisiblePrefix<D>(s0: System<D>, a: seq<(nat, Sample<D>)>, n: nat)
    requires Complete(s0, a) && n <= |a|
    ensures Visible(s0, a[..n]) <= Visible(s0, a)
    decreases |a|
  {
    if n < |a| {
      VisiblePrefix(s0, a[..|a| - 1], n);
      assert a[..|a| - 1][..n] == a[..n];
    } else {
      assert a[..n] == a;
    }
  }
}

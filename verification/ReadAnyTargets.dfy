/**
 The read transactions of the decorators' targets in a ReadAnyGroup. The read callback completes the target's
 transaction early and opens it again if the update is discarded; otherwise the next pre-read of the decorator does.
 */
module ReadAnyTargets {
  import opened Samples
  import opened HistorizedMatcher
  import opened ReadAnyGroup

  /** A decorator with an open read transaction has a target with an open one, except for element x. */
  ghost predicate Follow<D>(es: seq<Element<D>>, x: Option<nat>) {
    forall j :: 0 <= j < |es| && es[j].Grouped? && es[j].reading && x != Some(j) ==> es[j].targetReading
  }

  /** The element whose update has passed the read callback and is not yet accepted. */
  ghost function Pending<D>(s: System<D>): Option<nat> {
    var n := Taken(s.outstanding) + s.notifications;
    if s.evaluated && n != [] then Some(n[0]) else None
  }

  ghost predicate TargetsFollow<D>(s: System<D>) {
    Follow(s.group.elements, Pending(s))
  }

  lemma ReadCallbackTargets<D>(g: Group<D>, i: nat, u: Sample<D>)
    requires i < |g.elements| && g.elements[i].Grouped? && Follow(g.elements, None)
    ensures var (g', ok) := ReadCallback(g, i, u);
            && Follow(g'.elements, if ok then Some(i) else None)
            && |g'.elements| == |g.elements|
            && forall j :: 0 <= j < |g.elements| && g.elements[j].Grouped? ==>
                 && g'.elements[j].Grouped?
                 && g'.elements[j].targetReading == if j == i then !ok else g.elements[j].targetReading
  {
    var es := g.elements[i := ReceiveInto(g.elements[i], u)];
    FindMatchFrame(g.(elements := es), i);
  }

  lemma PreReadTargets<D>(g: Group<D>, i: nat, x: Option<nat>)
    requires i < |g.elements| && Follow(g.elements, x) && PreRead(g, i).1
    ensures Follow(PreRead(g, i).0.elements, x)
  {
  }

  lemma {:induction false} PreReadFromTargets<D>(g: Group<D>, j: nat, x: Option<nat>)
    requires j <= |g.elements| && Follow(g.elements, x) && PreReadFrom(g, j).1
    ensures Follow(PreReadFrom(g, j).0.elements, x)
    decreases |g.elements| - j
  {
    if j < |g.elements| {
      PreReadStep(g, j);
      PreReadTargets(g, j, x);
      PreReadFromTargets(PreRead(g, j).0, j + 1, x);
    }
  }

  lemma PostReadTargets<D>(g: Group<D>, i: nat)
    requires i < |g.elements| && IndicesValid(g.elements) && Follow(g.elements, Some(i))
    ensures Follow(PostRead(g, i).elements, None)
  {
  }

  lemma EvaluateTargets<D>(s: System<D>)
    requires WellFormed(s) && Taken(s.outstanding) + s.notifications != [] && !s.evaluated && TargetsFollow(s)
    ensures var (s1, ok) := Evaluate(s); TargetsFollow(s1.(evaluated := ok))
  {
    var i := Oldest(s);
    if s.group.elements[i].Grouped? { ReadCallbackTargets(s.group, i, s.queues[i][0]); }
  }

  lemma {:induction false} PeekTargets<D>(s: System<D>)
    requires WellFormed(s) && s.outstanding.None? && !s.evaluated && TargetsFollow(s)
    ensures TargetsFollow(Peek(s))
    decreases |s.notifications|
  {
    if s.notifications != [] {
      EvaluateTargets(s);
      var (s1, ok) := Evaluate(s);
      if !ok { PeekTargets(Consume(s1, false)); }
    }
  }

  lemma WaitAnyTargets<D>(s: System<D>)
    requires Core(s) && UpdateWasCalled(s) && s.outstanding.None? && s.notifications != [] && TargetsFollow(s)
    ensures TargetsFollow(WaitAny(s).0)
  {
    HandlePreReadRepairs(s);
    match s.lastOperation
    case Never => PreReadFromTargets(s.group, 0, Pending(s));
    case Discarded =>
    case At(i) => PreReadTargets(s.group, i, Pending(s));
  }

  lemma AcceptTargets<D>(s: System<D>)
    requires WellFormed(s) && s.outstanding.Some? && TargetsFollow(s)
    ensures TargetsFollow(Accept(s).0)
  {
    var i := Oldest(s);
    if s.evaluated {
      PostReadTargets(s.group, i);
    } else {
      EvaluateTargets(s);
      var (s1, ok) := Evaluate(s);
      if ok { PostReadTargets(s1.group, i); }
    }
  }

  /** postRead ends the transactions of the elements whose version changes, and its own. */
  lemma PostReadEnds<D>(g: Group<D>, i: nat, logs: seq<seq<Sample<D>>>)
    requires i < |g.elements| && AllReading(g.elements) && ElementsOk(g.elements, logs)
    requires g.elements[i].Grouped? ==> MatchPending(g, i, logs)
    ensures var es, es' := g.elements, PostRead(g, i).elements;
            && |es'| == |es| && !es'[i].reading
            && forall j :: 0 <= j < |es| && j != i ==>
                 (if es'[j].reading then es'[j] == es[j]
                  else es[i].Grouped? && es[j].Grouped? && es[j].user.version < es'[j].user.version)
  {
  }

  /** Accepting an update ends exactly the read transactions of the elements which show something new. */
  lemma AcceptEndsTransactions<D>(s: System<D>)
    requires Inv(s) && s.outstanding.Some? && Accept(s).1
    ensures var es, es', i := s.group.elements, Accept(s).0.group.elements, s.outstanding.value;
            && |es'| == |es| && i < |es| && !es'[i].reading
            && forall j :: 0 <= j < |es| && j != i ==>
                 (if es'[j].reading then es'[j].user == es[j].user
                  else es[i].Grouped? && es[j].Grouped? && es[j].user.version < es'[j].user.version)
  {
    var s1 := s;
    if !s.evaluated {
      EvaluateStep(s);
      s1 := Evaluate(s).0.(evaluated := true);
      AcceptEvaluates(s, Evaluate(s).0);
    }
    AcceptUnfolds(s1);
    PostReadEnds(s1.group, Oldest(s1), s1.logs);
  }

  lemma StepTargets<D>(s: System<D>, e: Event<D>)
    requires Inv(s) && Allowed(s, e) && TargetsFollow(s)
    ensures TargetsFollow(Step(s, e))
  {
    match e
    case Arrive(i, u) =>
    case Wait => WaitAnyTargets(s);
    case Poll =>
      PeekTargets(s);
      PeekStep(s);
      if Peek(s).notifications != [] { WaitAnyTargets(Peek(s)); }
    case AcceptLast => AcceptTargets(s);
    case CallUpdate(_) =>
  }

  lemma {:induction false} RunTargets<D>(s: System<D>, events: seq<Event<D>>)
    requires Inv(s) && Legal(s, events) && TargetsFollow(s)
    ensures TargetsFollow(Run(s, events))
    decreases |events|
  {
    if events != [] {
      StepTargets(s, events[0]);
      RunTargets(Step(s, events[0]), events[1..]);
    }
  }

  /** Each time waitAny starts waiting, not only the elements but also the targets of all decorators have their read
      transactions in progress, however many updates have been accepted and discarded before. */
  lemma {:induction false} TargetsReadWhileWaiting<D>(s0: System<D>, events: seq<Event<D>>)
    requires Initial(s0) && TargetsFollow(s0)
    ensures Inv(s0)
    ensures Legal(s0, events) && Allowed(Run(s0, events), Wait) ==>
              var s := WaitAny(Run(s0, events)).0;
              forall j :: 0 <= j < |s.group.elements| && s.group.elements[j].Grouped? ==>
                s.group.elements[j].reading && s.group.elements[j].targetReading
  {
    InitialInv(s0);
    if Legal(s0, events) && Allowed(Run(s0, events), Wait) {
      var s := Run(s0, events);
      RunTargets(s0, events);
      WaitAnyTargets(s);
      WaitAnyStep(s);
    }
  }
}

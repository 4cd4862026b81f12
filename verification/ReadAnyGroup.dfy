/**
 ReadAnyGroup as a step machine: producers append updates to the read queues, the application waits for
 notifications and accepts them. The queues are plain FIFOs, notifications appear in order of arrival.
 */
module ReadAnyGroup {
  import opened Samples
  import opened HistoryRing
  import opened HistorizedMatcher

  datatype LastOperation = Never | Discarded | At(index: nat)

  datatype System<D> = System(
    group: Group<D>,
    queues: seq<seq<Sample<D>>>,    // the _readQueue of each push element
    notifications: seq<nat>,        // notification_queue
    lastOperation: LastOperation,   // _lastOperationIndex
    outstanding: Option<nat>,       // a notification which has been handed out and not yet accepted
    evaluated: bool,                // the read callback of the outstanding update has already run while peeking
    // history variables
    arrived: seq<(nat, Sample<D>)>,   // everything pushed so far
    outcomes: seq<bool>,              // for each update consumed so far: was it let through?
    delivered: seq<(nat, Sample<D>)>, // what the application found in the user buffer after each accepted update
    logs: seq<seq<Sample<D>>>)        // per element: initial value and everything received

  // ----- notifications and queues

  function InFlight<D>(s: System<D>): seq<(nat, Sample<D>)>
    requires |s.outcomes| <= |s.arrived|
  {
    s.arrived[|s.outcomes|..]
  }

  function Indices<D>(f: seq<(nat, Sample<D>)>): seq<nat> {
    seq(|f|, k requires 0 <= k < |f| => f[k].0)
  }

  /** The updates of f which belong to element j, in order. */
  function Projection<D>(f: seq<(nat, Sample<D>)>, j: nat): seq<Sample<D>> {
    if f == [] then []
    else (if f[0].0 == j then [f[0].1] else []) + Projection(f[1..], j)
  }

  function Taken(o: Option<nat>): seq<nat> {
    if o.Some? then [o.value] else []
  }

  /** Outstanding and pending notifications are the indices of the updates in flight, in order of arrival, and each read
      queue is the projection of the updates in flight to its element. */
  ghost predicate Paired<D>(s: System<D>) {
    && |s.queues| == |s.group.elements| == |s.logs|
    && |s.outcomes| <= |s.arrived|
    && (forall k :: 0 <= k < |s.arrived| ==> s.arrived[k].0 < |s.queues|)
    && Taken(s.outstanding) + s.notifications == Indices(InFlight(s))
    && (forall j :: 0 <= j < |s.queues| ==> s.queues[j] == Projection(InFlight(s), j))
  }

  ghost predicate WellFormed<D>(s: System<D>) {
    && Paired(s)
    && IndicesValid(s.group.elements)
    && (s.lastOperation.At? ==> s.lastOperation.index < |s.group.elements|)
  }

  lemma {:induction false} ProjectionSnoc<D>(f: seq<(nat, Sample<D>)>, x: (nat, Sample<D>), j: nat)
    ensures Projection(f + [x], j) == Projection(f, j) + (if x.0 == j then [x.1] else [])
  {
    if f == [] {
      assert f + [x] == [x];
      assert [x][1..] == [];
    } else {
      assert (f + [x])[1..] == f[1..] + [x];
      ProjectionSnoc(f[1..], x, j);
    }
  }

  /** Number of notifications (pending or outstanding) for element j. */
  function Count(notifications: seq<nat>, j: nat): nat {
    if notifications == [] then 0
    else (if notifications[0] == j then 1 else 0) + Count(notifications[1..], j)
  }

  lemma {:induction false} ProjectionLength<D>(f: seq<(nat, Sample<D>)>, j: nat)
    ensures |Projection(f, j)| == Count(Indices(f), j)
  {
    if f != [] {
      assert Indices(f)[1..] == Indices(f[1..]);
      ProjectionLength(f[1..], j);
    }
  }

  /** Notification pairing: for each element, pending plus outstanding notifications match the queue length. */
  lemma {:induction false} NotificationsMatchQueues<D>(s: System<D>, j: nat)
    requires Paired(s) && j < |s.queues|
    ensures |s.queues[j]| == Count(Taken(s.outstanding) + s.notifications, j)
  {
    ProjectionLength(InFlight(s), j);
  }

  /** The oldest update in flight is the head of its element's queue. */
  lemma OldestIsHead<D>(s: System<D>)
    requires Paired(s) && InFlight(s) != []
    ensures var (i, u) := InFlight(s)[0]; i < |s.queues| && s.queues[i] != [] && s.queues[i][0] == u
    ensures (Taken(s.outstanding) + s.notifications)[0] == InFlight(s)[0].0
  {
    var (i, u) := InFlight(s)[0];
    assert s.arrived[|s.outcomes|] == (i, u);
    assert s.queues[i] == Projection(InFlight(s), i);
  }

  /** Index of the oldest update in flight. */
  function Oldest<D>(s: System<D>): (i: nat)
    requires Paired(s) && Taken(s.outstanding) + s.notifications != []
    ensures i < |s.queues| && s.queues[i] != []
    ensures InFlight(s) != [] && InFlight(s)[0] == (i, s.queues[i][0])
    ensures s.outstanding == Some(i) || (s.outstanding.None? && s.notifications[0] == i)
  {
    OldestIsHead(s);
    (Taken(s.outstanding) + s.notifications)[0]
  }

  // ----- operations

  /** A producer sends an update to element i. */
  function Push<D>(s: System<D>, i: nat, u: Sample<D>): System<D>
    requires i < |s.queues|
  {
    s.(queues := s.queues[i := s.queues[i] + [u]],
       notifications := s.notifications + [i],
       arrived := s.arrived + [(i, u)])
  }

  /** Running the continuation of the read queue's head: the read callback of a grouped element, nothing for others. */
  function Evaluate<D>(s: System<D>): (r: (System<D>, bool))
    requires WellFormed(s) && Taken(s.outstanding) + s.notifications != []
    ensures WellFormed(r.0)
    ensures r.0.outstanding == s.outstanding && r.0.notifications == s.notifications
    ensures r.0.arrived == s.arrived && r.0.outcomes == s.outcomes
  {
    var i := Oldest(s);
    var u := s.queues[i][0];
    var e := s.group.elements[i];
    var logs := s.logs[i := s.logs[i] + [u]];
    if e.Plain? then
      (s.(group := s.group.(elements := s.group.elements[i := Plain(e.user, e.reading, u)]), logs := logs), true)
    else
      ReadCallbackFits(s.group, i, u);
      var (g, ok) := ReadCallback(s.group, i, u);
      (s.(group := g, logs := logs), ok)
  }

  lemma ReadCallbackFits<D>(g: Group<D>, i: nat, u: Sample<D>)
    requires i < |g.elements| && g.elements[i].Grouped? && IndicesValid(g.elements)
    ensures var es := ReadCallback(g, i, u).0.elements; |es| == |g.elements| && IndicesValid(es)
  {
    ReadCallbackFrame(g, i, u);
  }

  /** The oldest update leaves its queue and its notification is gone. */
  function Consume<D>(s: System<D>, ok: bool): (s': System<D>)
    requires WellFormed(s) && Taken(s.outstanding) + s.notifications != []
    ensures WellFormed(s')
  {
    var i := Oldest(s);
    ConsumeStaysPaired(s, i);
    s.(queues := s.queues[i := s.queues[i][1..]],
       notifications := if s.outstanding.Some? then s.notifications else s.notifications[1..],
       outstanding := None,
       evaluated := false,
       outcomes := s.outcomes + [ok])
  }

  lemma ConsumeStaysPaired<D>(s: System<D>, i: nat)
    requires Paired(s) && Taken(s.outstanding) + s.notifications != [] && i == Oldest(s)
    ensures InFlight(s)[1..] == s.arrived[|s.outcomes| + 1..]
    ensures (Taken(s.outstanding) + s.notifications)[1..] == Indices(InFlight(s)[1..])
    ensures (Taken(s.outstanding) + s.notifications)[1..] ==
            (if s.outstanding.Some? then s.notifications else s.notifications[1..])
    ensures forall j :: 0 <= j < |s.queues| ==> s.queues[i := s.queues[i][1..]][j] == Projection(InFlight(s)[1..], j)
  {
    var f := InFlight(s);
    assert Indices(f)[1..] == Indices(f[1..]);
    forall j | 0 <= j < |s.queues| ensures s.queues[i := s.queues[i][1..]][j] == Projection(f[1..], j) {
      assert s.queues[j] == Projection(f, j);
    }
  }

  /** Calling preRead on the elements from j on. */
  function PreReadFrom<D>(g: Group<D>, j: nat): (Group<D>, bool)
    requires j <= |g.elements|
    decreases |g.elements| - j
  {
    if j == |g.elements| then (g, true)
    else
      PreReadStep(g, j);
      var (g', ok) := PreRead(g, j);
      if ok then PreReadFrom(g', j + 1) else (g', false)
  }

  function HandlePreRead<D>(s: System<D>): (Group<D>, bool)
    requires s.lastOperation.At? ==> s.lastOperation.index < |s.group.elements|
  {
    match s.lastOperation
    case Never => PreReadFrom(s.group, 0)
    case Discarded => (s.group, true)
    case At(i) => PreRead(s.group, i)
  }

  /** ReadAnyGroup::waitAny when a notification is available; false stands for the logic_error of wrong usage. */
  function WaitAny<D>(s: System<D>): (System<D>, bool)
    requires s.lastOperation.At? ==> s.lastOperation.index < |s.group.elements|
    requires s.notifications != []
  {
    var (g, ok) := HandlePreRead(s);
    if !ok then (s.(group := g), false)
    else (s.(group := g, outstanding := Some(s.notifications[0]), notifications := s.notifications[1..]), true)
  }

  /** ReadAnyGroup::Notification::accept. */
  function Accept<D>(s: System<D>): (r: (System<D>, bool))
    requires WellFormed(s) && s.outstanding.Some?
  {
    var i := Oldest(s);
    var (s1, ok) := if s.evaluated then (s, true) else Evaluate(s);
    var s2 := Consume(s1, ok);
    if !ok then (s2.(lastOperation := Discarded), false)
    else
      var g := PostRead(s2.group, i);
      (s2.(group := g, lastOperation := At(i), delivered := s2.delivered + [(i, g.elements[i].user)]), true)
  }

  /** The discard-restart loop of ReadAnyGroup::waitAnyNonBlocking: updates which will be discarded are removed from the
      queues, until an update comes which will be let through or the queues are empty. */
  function Peek<D>(s: System<D>): (s': System<D>)
    requires WellFormed(s) && s.outstanding.None?
    ensures WellFormed(s')
    ensures s'.outstanding.None? && s'.lastOperation == s.lastOperation
    decreases |s.notifications|
  {
    if s.notifications == [] then s
    else
      var (s1, ok) := Evaluate(s);
      if ok then s1.(evaluated := true) else Peek(Consume(s1, false))
  }

  /** ReadAnyGroup::waitAnyNonBlocking. Without an outstanding notification in the result, none was available. */
  function WaitAnyNonBlocking<D>(s: System<D>): (System<D>, bool)
    requires WellFormed(s) && s.outstanding.None?
  {
    var s' := Peek(s);
    if s'.notifications == [] then (s', true) else WaitAny(s')
  }

  // ----- the invariant of every run

  /** Per element, versions never go back: received ones first, then the ones still in the queue. */
  ghost predicate Ordered<D>(s: System<D>) {
    && |s.logs| == |s.queues|
    && forall j :: 0 <= j < |s.queues| ==>
         NonDecreasing(s.logs[j] + s.queues[j]) && forall k :: 0 <= k < |s.queues[j]| ==> s.queues[j][k].version > 0
  }

  /** Those of the consumed updates which were let through, in order of arrival. */
  function LetThrough<D>(a: seq<(nat, Sample<D>)>, outcomes: seq<bool>): seq<(nat, Sample<D>)>
    requires |outcomes| <= |a|
  {
    if outcomes == [] then []
    else
      var n := |outcomes| - 1;
      LetThrough(a, outcomes[..n]) + (if outcomes[n] then [a[n]] else [])
  }

  /** Missing pre-reads are those the next handlePreRead catches up on. */
  ghost predicate Repairable<D>(s: System<D>) {
    var es := s.group.elements;
    && (s.group.needPreRead ==>
      && s.lastOperation.At? && s.lastOperation.index < |es|
      && es[s.lastOperation.index].Grouped? && !es[s.lastOperation.index].reading)
    && forall j :: 0 <= j < |es| ==>
         || es[j].reading
         || s.lastOperation == Never
         || s.lastOperation == At(j)
         || (s.group.needPreRead && es[j].Grouped?)
  }

  /** The oldest update has passed its read callback and waits for its post-read. */
  ghost predicate Ready<D>(s: System<D>)
    requires Paired(s) && Taken(s.outstanding) + s.notifications != []
  {
    var i := Oldest(s);
    var u := s.queues[i][0];
    if s.group.elements[i].Grouped? then MatchPending(s.group, i, s.logs) && s.group.elements[i].ring.target == u
    else Settled(s.group, s.logs) && s.group.elements[i].incoming == u
  }

  ghost predicate Core<D>(s: System<D>) {
    && WellFormed(s)
    && Ordered(s)
    && Repairable(s)
    && s.delivered == LetThrough(s.arrived, s.outcomes)
    && if s.evaluated then Taken(s.outstanding) + s.notifications != [] && Ready(s) else Settled(s.group, s.logs)
  }

  ghost predicate Inv<D>(s: System<D>) {
    && Core(s)
    && (s.outstanding.Some? ==> AllReading(s.group.elements) && !s.group.needPreRead)
    && (s.evaluated ==> s.outstanding.Some?)
  }

  /** What running a read callback leaves alone. */
  ghost predicate OnlyEvaluated<D>(s: System<D>, s1: System<D>) {
    && s1.(group := s.group, logs := s.logs) == s
    && s1.group.needPreRead == s.group.needPreRead
    && s1.group.updateCalled == s.group.updateCalled
    && |s1.group.elements| == |s.group.elements|
    && forall j :: 0 <= j < |s.group.elements| ==>
         && s1.group.elements[j].user == s.group.elements[j].user
         && s1.group.elements[j].reading == s.group.elements[j].reading
         && s1.group.elements[j].Grouped? == s.group.elements[j].Grouped?
  }

  lemma EvaluateFrame<D>(s: System<D>)
    requires WellFormed(s) && Taken(s.outstanding) + s.notifications != []
    ensures OnlyEvaluated(s, Evaluate(s).0)
  {
    var i := Oldest(s);
    if s.group.elements[i].Grouped? { ReadCallbackFrame(s.group, i, s.queues[i][0]); }
  }

  lemma EvaluateSettles<D>(s: System<D>)
    requires Core(s) && !s.evaluated && Taken(s.outstanding) + s.notifications != []
    ensures var (s1, ok) := Evaluate(s); if ok then Ready(s1) else Settled(s1.group, s1.logs)
  {
    var i := Oldest(s);
    var u := s.queues[i][0];
    var g := s.group;
    OrderedAfterReceive(s, i);
    if g.elements[i].Plain? {
      assert ElementOk(g.elements[i], s.logs[i]);
      LogGrows(s.logs[i], u);
      PlainChange(g, i, Plain(g.elements[i].user, g.elements[i].reading, u), s.logs, s.logs[i := s.logs[i] + [u]]);
    } else {
      ReadCallbackStep(g, i, u, s.logs);
    }
  }

  lemma EvaluateStep<D>(s: System<D>)
    requires Core(s) && !s.evaluated && Taken(s.outstanding) + s.notifications != []
    ensures var (s1, ok) := Evaluate(s); OnlyEvaluated(s, s1) && Core(s1.(evaluated := ok))
  {
    EvaluateFrame(s);
    EvaluateSettles(s);
    OrderedAfterReceive(s, Oldest(s));
    EvaluateLogs(s);
    hide Evaluate, Ready, Settled, Ordered;
    EvaluatedCore(s, Evaluate(s).0, Evaluate(s).1);
  }

  lemma EvaluateLogs<D>(s: System<D>)
    requires WellFormed(s) && Taken(s.outstanding) + s.notifications != []
    ensures Evaluate(s).0.logs == s.logs[Oldest(s) := s.logs[Oldest(s)] + [s.queues[Oldest(s)][0]]]
  {
  }

  lemma EvaluatedCore<D>(s: System<D>, s1: System<D>, ok: bool)
    requires Core(s) && !s.evaluated && Taken(s.outstanding) + s.notifications != []
    requires WellFormed(s1) && OnlyEvaluated(s, s1) && Ordered(s.(logs := s1.logs))
    requires if ok then Ready(s1) else Settled(s1.group, s1.logs)
    ensures Core(s1.(evaluated := ok))
  {
  }

  lemma LogGrows<D>(log: seq<Sample<D>>, u: Sample<D>)
    requires ValidLog(log) && u.version > 0 && log[|log| - 1].version <= u.version
    ensures ValidLog(log + [u])
  {
  }

  lemma OrderedAfterReceive<D>(s: System<D>, i: nat)
    requires Ordered(s) && i < |s.queues| && s.queues[i] != [] && s.logs[i] != []
    ensures var u := s.queues[i][0];
            && u.version > 0 && s.logs[i][|s.logs[i]| - 1].version <= u.version
            && Ordered(s.(logs := s.logs[i := s.logs[i] + [u]]))
  {
    var l, q := s.logs[i], s.queues[i];
    var u := q[0];
    assert (l + q)[|l| - 1] == l[|l| - 1] && (l + q)[|l|] == u;
    forall a, b | 0 <= a < b < |l + [u] + q| ensures (l + [u] + q)[a].version <= (l + [u] + q)[b].version {
      var a', b' := if a <= |l| then a else a - 1, if b <= |l| then b else b - 1;
      assert (l + [u] + q)[a] == (l + q)[a'] && (l + [u] + q)[b] == (l + q)[b'];
    }
  }

  lemma OrderedAfterConsume<D>(s: System<D>, i: nat)
    requires Ordered(s) && i < |s.queues| && s.queues[i] != []
    ensures Ordered(s.(queues := s.queues[i := s.queues[i][1..]]))
  {
    var l, q := s.logs[i], s.queues[i];
    assert forall a :: 0 <= a < |l + q[1..]| ==> (l + q[1..])[a] == (l + q)[if a < |l| then a else a + 1];
  }

  /** A discarded update leaves the queues. */
  lemma ConsumeDiscarded<D>(s: System<D>)
    requires Core(s) && !s.evaluated && Taken(s.outstanding) + s.notifications != []
    ensures Core(Consume(s, false))
  {
    var i := Oldest(s);
    OrderedAfterConsume(s, i);
    assert (s.outcomes + [false])[..|s.outcomes|] == s.outcomes;
  }

  lemma {:induction false} PreReadFromStep<D>(g: Group<D>, j: nat)
    requires j <= |g.elements| && !g.needPreRead
    requires forall k :: 0 <= k < j ==> g.elements[k].reading
    ensures var (g', ok) := PreReadFrom(g, j);
            && ok && SameButFlags(g.elements, g'.elements) && AllReading(g'.elements)
            && g'.lastMatch == g.lastMatch && g'.updateCalled == g.updateCalled && !g'.needPreRead
    decreases |g.elements| - j
  {
    if j < |g.elements| {
      PreReadStep(g, j);
      PreReadFromStep(PreRead(g, j).0, j + 1);
    }
  }

  /** The application has passed the last accepted update to DataConsistencyGroup::update if that is still awaited. */
  predicate UpdateWasCalled<D>(s: System<D>) {
    s.group.needPreRead && s.lastOperation.At? ==> s.group.updateCalled == Some(s.lastOperation.index)
  }

  /** Pre-read repair: when waiting starts, every element has its read transaction in progress, although preRead has
      only been called on the last accepted element. */
  lemma HandlePreReadRepairs<D>(s: System<D>)
    requires Core(s) && UpdateWasCalled(s)
    ensures var (g, ok) := HandlePreRead(s);
            && ok && AllReading(g.elements) && !g.needPreRead
            && SameButFlags(s.group.elements, g.elements) && g.lastMatch == s.group.lastMatch
  {
    match s.lastOperation
    case Never => PreReadFromStep(s.group, 0);
    case Discarded =>
    case At(i) => PreReadStep(s.group, i);
  }

  lemma WaitAnyStep<D>(s: System<D>)
    requires Core(s) && UpdateWasCalled(s) && s.outstanding.None? && s.notifications != []
    ensures var (s', ok) := WaitAny(s);
            ok && Inv(s') && s'.outstanding.Some? && SameButFlags(s.group.elements, s'.group.elements)
  {
    var (s', ok) := WaitAny(s);
    HandlePreReadRepairs(s);
    FlagsDoNotMatter(s.group, s'.group, Oldest(s), s.logs);
    assert Taken(s'.outstanding) + s'.notifications == s.notifications;
    assert Taken(s.outstanding) + s.notifications == s.notifications;
  }

  /** The restart loop removes an update which would be discarded. */
  lemma DiscardStep<D>(s: System<D>)
    requires Core(s) && s.outstanding.None? && !s.evaluated && s.notifications != [] && !Evaluate(s).1
    ensures var s' := Consume(Evaluate(s).0, false);
            && Core(s') && s'.outstanding.None? && !s'.evaluated
            && (UpdateWasCalled(s) ==> UpdateWasCalled(s'))
            && SameUsers(s.group.elements, s'.group.elements)
  {
    EvaluateStep(s);
    ConsumeDiscarded(Evaluate(s).0);
  }

  /** The discard-restart loop keeps the invariant and changes no user buffer. */
  lemma {:induction false} PeekStep<D>(s: System<D>)
    requires Core(s) && s.outstanding.None? && !s.evaluated
    ensures var s' := Peek(s);
            && Core(s')
            && (UpdateWasCalled(s) ==> UpdateWasCalled(s'))
            && (s'.evaluated <==> s'.notifications != [])
            && |s'.group.elements| == |s.group.elements|
            && (forall j :: 0 <= j < |s.group.elements| ==> s'.group.elements[j].user == s.group.elements[j].user)
    decreases |s.notifications|
  {
    if s.notifications != [] {
      EvaluateStep(s);
      if !Evaluate(s).1 {
        DiscardStep(s);
        hide Core, UpdateWasCalled, Evaluate;
        PeekStep(Consume(Evaluate(s).0, false));
      }
    }
  }

  lemma PollStep<D>(s: System<D>)
    requires Inv(s) && UpdateWasCalled(s) && s.outstanding.None?
    ensures var (s', ok) := WaitAnyNonBlocking(s); ok && Inv(s')
  {
    PeekStep(s);
    if Peek(s).notifications != [] { WaitAnyStep(Peek(s)); }
  }

  /** Consuming and post-reading an update which has been let through. */
  lemma DeliverStep<D>(s: System<D>)
    requires Core(s) && s.evaluated && s.outstanding.Some? && AllReading(s.group.elements) && !s.group.needPreRead
    ensures var (s', ok) := Accept(s);
            && ok && Inv(s') && s'.outstanding.None? && s'.lastOperation == At(s.outstanding.value)
            && s'.group.elements[s.outstanding.value].user == s.queues[s.outstanding.value][0]
  {
    DeliveredBookkeeping(s);
    if s.group.elements[Oldest(s)].Grouped? { DeliverGrouped(s); } else { DeliverPlain(s); }
  }

  /** Accepting an update which has passed its read callback. */
  lemma AcceptUnfolds<D>(s: System<D>)
    requires WellFormed(s) && s.evaluated && s.outstanding.Some?
    ensures var (s', ok) := Accept(s);
            var i, s2 := Oldest(s), Consume(s, true);
            && ok && |s'.group.elements| == |s.group.elements|
            && s' == s2.(group := PostRead(s2.group, i), lastOperation := At(i),
                         delivered := s.delivered + [(i, s'.group.elements[i].user)])
  {
  }

  /** Queues and history variables. */
  lemma DeliveredBookkeeping<D>(s: System<D>)
    requires Core(s) && s.evaluated && s.outstanding.Some?
    ensures var (s', ok) := Accept(s);
            && ok && Paired(s') && Ordered(s') && !s'.evaluated && s'.outstanding.None?
              && s'.lastOperation == At(Oldest(s))
            && s'.delivered == s.delivered + [(Oldest(s), s'.group.elements[Oldest(s)].user)]
            && LetThrough(s'.arrived, s'.outcomes) ==
              LetThrough(s.arrived, s.outcomes) + [(Oldest(s), s.queues[Oldest(s)][0])]
  {
    AcceptUnfolds(s);
    ConsumedBookkeeping(s);
    hide Accept, Core, PostRead, Ordered, Consume;
    SameBookkeeping(Consume(s, true), Accept(s).0);
  }

  lemma ConsumedBookkeeping<D>(s: System<D>)
    requires WellFormed(s) && Ordered(s) && s.outstanding.Some?
    ensures var s' := Consume(s, true);
            && Paired(s') && Ordered(s') && !s'.evaluated && s'.outstanding.None? && s'.delivered == s.delivered
            && LetThrough(s'.arrived, s'.outcomes) ==
              LetThrough(s.arrived, s.outcomes) + [(Oldest(s), s.queues[Oldest(s)][0])]
  {
    var i := Oldest(s);
    OrderedAfterConsume(s, i);
    assert (s.outcomes + [true])[..|s.outcomes|] == s.outcomes;
    assert s.arrived[|s.outcomes|] == (i, s.queues[i][0]);
  }

  lemma SameBookkeeping<D>(s: System<D>, s': System<D>)
    requires Paired(s) && Ordered(s) && |s'.group.elements| == |s.group.elements|
    requires s'.(group := s.group, lastOperation := s.lastOperation, delivered := s.delivered) == s
    ensures Paired(s') && Ordered(s')
  {
    assert InFlight(s') == InFlight(s);
  }

  lemma DeliverGrouped<D>(s: System<D>)
    requires Core(s) && s.evaluated && s.outstanding.Some? && AllReading(s.group.elements) && !s.group.needPreRead
    requires s.group.elements[Oldest(s)].Grouped?
    ensures var s' := Accept(s).0;
            && IndicesValid(s'.group.elements) && Repairable(s') && Settled(s'.group, s'.logs)
            && s'.group.elements[Oldest(s)].user == s.queues[Oldest(s)][0]
  {
    PostReadStep(s.group, Oldest(s), s.logs);
    PostReadKeepsPlain(s.group, Oldest(s));
  }

  lemma DeliverPlain<D>(s: System<D>)
    requires Core(s) && s.evaluated && s.outstanding.Some? && AllReading(s.group.elements) && !s.group.needPreRead
    requires s.group.elements[Oldest(s)].Plain?
    ensures var s' := Accept(s).0;
            && IndicesValid(s'.group.elements) && Repairable(s') && Settled(s'.group, s'.logs)
            && s'.group.elements[Oldest(s)].user == s.queues[Oldest(s)][0]
  {
    PlainPostReadStep(s.group, Oldest(s), s.logs);
  }

  /** What accept() does for the application. */
  ghost predicate Outcome<D>(s: System<D>, i: nat, s': System<D>, ok: bool)
    requires i < |s.queues| && s.queues[i] != []
  {
    if ok then s'.lastOperation == At(i) && i < |s'.group.elements| && s'.group.elements[i].user == s.queues[i][0]
    else s'.lastOperation == Discarded && SameUsers(s.group.elements, s'.group.elements)
  }

  ghost predicate SameUsers<D>(es: seq<Element<D>>, es': seq<Element<D>>) {
    |es'| == |es| && forall j :: 0 <= j < |es| ==> es'[j].user == es[j].user
  }

  lemma AcceptStep<D>(s: System<D>)
    requires Inv(s) && s.outstanding.Some?
    ensures var (s', ok) := Accept(s);
            && Inv(s') && s'.outstanding.None?
            && ok == (s.evaluated || Evaluate(s).1)
            && Outcome(s, s.outstanding.value, s', ok)
  {
    if s.evaluated {
      DeliverStep(s);
    } else if Evaluate(s).1 {
      AcceptFresh(s);
    } else {
      AcceptDiscarded(s);
    }
  }

  lemma AcceptFresh<D>(s: System<D>)
    requires Inv(s) && s.outstanding.Some? && !s.evaluated && Evaluate(s).1
    ensures var (s', ok) := Accept(s);
            ok && Inv(s') && s'.outstanding.None? && Outcome(s, s.outstanding.value, s', true)
  {
    var s1 := Evaluate(s).0;
    EvaluateStep(s);
    AcceptEvaluates(s, s1);
    hide Core;
    DeliverStep(s1.(evaluated := true));
  }

  lemma AcceptDiscarded<D>(s: System<D>)
    requires Inv(s) && s.outstanding.Some? && !s.evaluated && !Evaluate(s).1
    ensures var (s', ok) := Accept(s);
            !ok && Inv(s') && s'.outstanding.None? && Outcome(s, s.outstanding.value, s', false)
  {
    var s1 := Evaluate(s).0;
    EvaluateStep(s);
    AcceptDiscards(s, s1);
    ConsumeDiscarded(s1);
    hide Core, Evaluate, Consume, Inv;
    MarkDiscarded(s, s1, Consume(s1, false));
  }

  lemma MarkDiscarded<D>(s: System<D>, s1: System<D>, x: System<D>)
    requires Inv(s) && s.outstanding.Some? && OnlyEvaluated(s, s1)
    requires WellFormed(s1) && s1.outstanding.Some? && x == Consume(s1, false) && Core(x)
    ensures Inv(x.(lastOperation := Discarded)) && x.outstanding.None?
    ensures SameUsers(s.group.elements, x.group.elements)
  {
  }

  lemma AcceptEvaluates<D>(s: System<D>, s1: System<D>)
    requires WellFormed(s) && s.outstanding.Some? && !s.evaluated && Evaluate(s) == (s1, true)
    ensures Accept(s) == Accept(s1.(evaluated := true)) && Oldest(s1) == Oldest(s) && s1.queues == s.queues
  {
  }

  lemma AcceptDiscards<D>(s: System<D>, s1: System<D>)
    requires WellFormed(s) && s.outstanding.Some? && !s.evaluated && Evaluate(s) == (s1, false)
    ensures Accept(s) == (Consume(s1, false).(lastOperation := Discarded), false)
  {
  }

  // ----- runs

  datatype Event<D> =
    | Arrive(index: nat, update: Sample<D>)  // a producer pushes an update
    | Wait                                   // waitAny() with a notification pending
    | Poll                                   // waitAnyNonBlocking()
    | AcceptLast                             // accept() on the notification handed out last
    | CallUpdate(index: nat)                 // DataConsistencyGroup::update()

  /** What producers and the application are expected to do: versions are not null and never go back per element, a
      notification is accepted before the next one is asked for, and accepted updates are passed to update(). */
  ghost predicate Allowed<D>(s: System<D>, e: Event<D>) {
    match e
    case Arrive(i, u) =>
      && i < |s.queues| && |s.logs| == |s.queues| && u.version > 0
      && forall k :: 0 <= k < |s.logs[i] + s.queues[i]| ==> (s.logs[i] + s.queues[i])[k].version <= u.version
    case Wait => s.outstanding.None? && s.notifications != [] && UpdateWasCalled(s)
    case Poll => s.outstanding.None? && UpdateWasCalled(s)
    case AcceptLast => s.outstanding.Some?
    case CallUpdate(_) => true
  }

  lemma PushStaysPaired<D>(s: System<D>, i: nat, u: Sample<D>)
    requires Paired(s) && i < |s.queues|
    ensures Paired(Push(s, i, u))
    ensures InFlight(Push(s, i, u)) == InFlight(s) + [(i, u)]
  {
    var s', f := Push(s, i, u), InFlight(s);
    assert InFlight(s') == f + [(i, u)];
    assert Indices(f + [(i, u)]) == Indices(f) + [i];
    assert Taken(s'.outstanding) + s'.notifications == Taken(s.outstanding) + s.notifications + [i];
    forall j | 0 <= j < |s.queues| ensures s'.queues[j] == Projection(InFlight(s'), j) {
      ProjectionSnoc(f, (i, u), j);
    }
  }

  lemma OrderedAfterPush<D>(s: System<D>, i: nat, u: Sample<D>)
    requires Ordered(s) && Allowed(s, Arrive(i, u))
    ensures Ordered(Push(s, i, u))
  {
    assert s.logs[i] + (s.queues[i] + [u]) == (s.logs[i] + s.queues[i]) + [u];
  }

  lemma PushStep<D>(s: System<D>, i: nat, u: Sample<D>)
    requires Inv(s) && Allowed(s, Arrive(i, u))
    ensures Inv(Push(s, i, u))
  {
    PushStaysPaired(s, i, u);
    OrderedAfterPush(s, i, u);
    LetThroughPrefix(s.arrived, (i, u), s.outcomes);
    if s.evaluated {
      assert Oldest(Push(s, i, u)) == Oldest(s);
    }
  }

  lemma {:induction false} LetThroughPrefix<D>(a: seq<(nat, Sample<D>)>, x: (nat, Sample<D>), outcomes: seq<bool>)
    requires |outcomes| <= |a|
    ensures LetThrough(a + [x], outcomes) == LetThrough(a, outcomes)
  {
    if outcomes != [] { LetThroughPrefix(a, x, outcomes[..|outcomes| - 1]); }
  }

  lemma UpdateStep<D>(s: System<D>, i: nat)
    requires Inv(s)
    ensures Inv(s.(group := Update(s.group, i).0))
  {
    FlagsDoNotMatter(s.group, Update(s.group, i).0, if s.outstanding.Some? then s.outstanding.value else 0, s.logs);
  }

  /** One step of a run. Every step keeps the invariant. */
  ghost function Step<D>(s: System<D>, e: Event<D>): (s': System<D>)
    requires Inv(s) && Allowed(s, e)
    ensures Inv(s')
  {
    match e
    case Arrive(i, u) => PushStep(s, i, u); Push(s, i, u)
    case Wait => WaitAnyStep(s); WaitAny(s).0
    case Poll => PollStep(s); WaitAnyNonBlocking(s).0
    case AcceptLast => AcceptStep(s); Accept(s).0
    case CallUpdate(i) => UpdateStep(s, i); s.(group := Update(s.group, i).0)
  }

  /** update() for the element accepted last makes waiting and polling possible again. */
  lemma UpdateAllowsWaiting<D>(s: System<D>, i: nat)
    requires Inv(s) && s.outstanding.None? && s.lastOperation == At(i)
    ensures var s' := Step(s, CallUpdate(i));
            UpdateWasCalled(s') && Allowed(s', Poll) && (s.notifications != [] ==> Allowed(s', Wait))
  {
  }

  ghost predicate Legal<D>(s: System<D>, events: seq<Event<D>>)
    requires Inv(s)
    decreases |events|
  {
    events == [] || (Allowed(s, events[0]) && Legal(Step(s, events[0]), events[1..]))
  }

  ghost function Run<D>(s: System<D>, events: seq<Event<D>>): (s': System<D>)
    requires Inv(s) && Legal(s, events)
    ensures Inv(s')
    decreases |events|
  {
    if events == [] then s else Run(Step(s, events[0]), events[1..])
  }

  /** A group as set up by DataConsistencyGroup and ReadAnyGroup: each decorator has taken over the initial value of its
      target, the target is left with a meaningless buffer under the same version, and the history is empty. */
  ghost predicate Initial<D>(s: System<D>) {
    var es := s.group.elements;
    && |s.queues| == |s.logs| == |es|
    && s.group.lastMatch == 0 && !s.group.needPreRead
    && s.notifications == [] && s.outstanding.None? && !s.evaluated && s.lastOperation == Never
    && s.arrived == [] && s.outcomes == [] && s.delivered == []
    && forall j :: 0 <= j < |es| ==>
         && s.queues[j] == [] && s.logs[j] == [es[j].user]
         && (es[j].Plain? ==> es[j].incoming == es[j].user)
         && (es[j].Grouped? ==> es[j].matchIndex == 0 && Fresh(es[j].ring, es[j].user))
  }

  lemma InitialInv<D>(s: System<D>)
    requires Initial(s)
    ensures Inv(s)
  {
    var es := s.group.elements;
    forall j | 0 <= j < |es| ensures ElementOk(es[j], s.logs[j]) {
      if es[j].Grouped? {
        FreshShape(es[j].ring, es[j].user);
        assert forall k :: 1 <= k < |Slots(es[j].ring)| ==> Slots(es[j].ring)[k] == es[j].ring.history[k - 1];
      }
    }
    forall v | v > 0 && AllHold(es, v) ensures AllShow(es, v) {
      forall j | 0 <= j < |es| && es[j].Grouped? ensures es[j].user.version == v {
        FreshHolds(es[j].ring, es[j].user, v);
      }
    }
    assert s.notifications == Indices(InFlight(s));
    assert Taken(s.outstanding) + s.notifications == [];
  }

  // ----- main theorems

  /** Historized safety over every run. Whatever producers and application do, in every state between two accepted
      updates all grouped accessors report the last matched version, and each user buffer (data, version and validity
      together) is a sample which that element really received or started with. */
  lemma {:induction false} HistorizedSafety<D>(s0: System<D>, events: seq<Event<D>>)
    requires Initial(s0)
    ensures Inv(s0)
    ensures Legal(s0, events) ==>
              var s := Run(s0, events);
              && |s.logs| == |s.group.elements|
              && (forall j :: 0 <= j < |s.group.elements| ==> s.group.elements[j].user in s.logs[j])
              && (!s.evaluated && s.group.lastMatch > 0 ==>
                AllShow(s.group.elements, s.group.lastMatch) && Consistent(s.group))
  {
    InitialInv(s0);
    if Legal(s0, events) { UsersAreLogged(Run(s0, events)); }
  }

  /** Accepting an update of a grouped element brings all grouped accessors to its version, with data received under
      that version, and discarding changes no user buffer. */
  lemma AcceptIsConsistent<D>(s: System<D>)
    requires Inv(s) && s.outstanding.Some?
    ensures var (s', ok) := Accept(s);
            var i := s.outstanding.value;
            var u := s.queues[i][0];
            && (ok ==> s'.group.elements[i].user == u)
            && (ok && s.group.elements[i].Grouped? ==>
                  AllShow(s'.group.elements, u.version) &&
                  forall j :: 0 <= j < |s'.group.elements| ==> s'.group.elements[j].user in s'.logs[j])
            && (!ok ==> |s'.group.elements| == |s.group.elements| &&
                        forall j :: 0 <= j < |s.group.elements| ==>
                          s'.group.elements[j].user == s.group.elements[j].user)
  {
    AcceptStep(s);
    var (s', ok) := Accept(s);
    UsersAreLogged(s');
    if ok && s.group.elements[s.outstanding.value].Grouped? { AcceptShowsVersion(s); }
  }

  lemma UsersAreLogged<D>(s: System<D>)
    requires Inv(s)
    ensures |s.logs| == |s.group.elements|
    ensures forall j :: 0 <= j < |s.group.elements| ==> s.group.elements[j].user in s.logs[j]
  {
    forall j | 0 <= j < |s.group.elements|
      ensures s.group.elements[j].user in s.logs[j]
    {
      assert ElementOk(s.group.elements[j], s.logs[j]);
    }
  }

  lemma AcceptShowsVersion<D>(s: System<D>)
    requires Inv(s) && s.outstanding.Some? && Accept(s).1 && s.group.elements[Oldest(s)].Grouped?
    ensures AllShow(Accept(s).0.group.elements, s.queues[Oldest(s)][0].version)
  {
    var s1 := s;
    if !s.evaluated {
      EvaluateStep(s);
      s1 := Evaluate(s).0.(evaluated := true);
      AcceptEvaluates(s, Evaluate(s).0);
    }
    AcceptUnfolds(s1);
    PostReadStep(s1.group, Oldest(s), s1.logs);
  }

  /** When an update is let through: exactly when every other grouped element still remembers its version, that is, when
      the version is among the `Capacity` most recent distinct versions that element has received. */
  lemma LetThroughIff<D>(s: System<D>)
    requires Inv(s) && !s.evaluated && Taken(s.outstanding) + s.notifications != []
    requires s.group.elements[Oldest(s)].Grouped?
    ensures var v := s.queues[Oldest(s)][0].version;
            Evaluate(s).1 <==>
              forall j :: 0 <= j < |s.group.elements| && j != Oldest(s) && s.group.elements[j].Grouped? ==>
                Remembers(s.logs[j], |s.group.elements[j].ring.history|, v)
  {
    var i, es := Oldest(s), s.group.elements;
    var u := s.queues[i][0];
    ReadCallbackFrame(s.group, i, u);
    forall j | 0 <= j < |es| && j != i && es[j].Grouped?
      ensures Holds(es[j].ring, u.version) <==> Remembers(s.logs[j], |es[j].ring.history|, u.version)
    {
      assert ElementOk(es[j], s.logs[j]);
      HoldsIffRecent(es[j].ring, s.logs[j], u.version);
    }
  }

  /** Historized completeness: with strictly increasing versions, if every other element has received the version of the
      completing update and no more newer ones since than it has history slots, the update is let through. */
  lemma CompletingUpdateAccepted<D>(s: System<D>)
    requires Inv(s) && s.outstanding.Some? && !s.evaluated
    requires s.group.elements[Oldest(s)].Grouped?
    requires var v := s.queues[Oldest(s)][0].version;
             forall j :: 0 <= j < |s.group.elements| && j != Oldest(s) && s.group.elements[j].Grouped? ==>
               && StrictlyIncreasing(s.logs[j])
               && exists p :: 0 <= p < |s.logs[j]| && s.logs[j][p].version == v &&
                              |s.logs[j]| - 1 - p <= |s.group.elements[j].ring.history|
    ensures Accept(s).1
    ensures AllShow(Accept(s).0.group.elements, s.queues[Oldest(s)][0].version)
  {
    var i, es := Oldest(s), s.group.elements;
    var u := s.queues[i][0];
    ReadCallbackFrame(s.group, i, u);
    forall j | 0 <= j < |es| && j != i && es[j].Grouped? ensures Holds(es[j].ring, u.version) {
      assert ElementOk(es[j], s.logs[j]);
      var p :| 0 <= p < |s.logs[j]| && s.logs[j][p].version == u.version && |s.logs[j]| - 1 - p <= |es[j].ring.history|;
      HeldWhileRecent(es[j].ring, s.logs[j], p);
    }
    AcceptIsConsistent(s);
  }

  /** Exactly-once delivery in arrival order: in every reachable state, what the application has found in the user
      buffers is the sequence of arrived updates without the discarded and the still pending ones. */
  lemma {:induction false} DeliveredInOrder<D>(s0: System<D>, events: seq<Event<D>>)
    requires Initial(s0)
    ensures Inv(s0)
    ensures Legal(s0, events) ==>
              var s := Run(s0, events);
              && |s.outcomes| <= |s.arrived|
              && s.delivered == LetThrough(s.arrived, s.outcomes)
              && Taken(s.outstanding) + s.notifications == Indices(s.arrived[|s.outcomes|..])
  {
    InitialInv(s0);
  }
}

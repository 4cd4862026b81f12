/**
 ReadAnyGroup as an object: the read queues, the notification queue and the last operation are fields which the
 operations change. Every operation is tied to the step machine of module ReadAnyGroup.
 */
module ReadAnyGroupObject {
  import opened Samples
  import opened HistoryRing
  import opened H = HistorizedMatcher
  import opened HistorizedMatcherObject
  import opened R = ReadAnyGroup
  import opened ReadAnyOutcomes
  import opened ReadAnyProgress

  class Reader<D> {
    const matcher: Matcher<D>
    var queues: seq<seq<Sample<D>>>
    var notifications: seq<nat>
    var lastOperation: LastOperation
    var outstanding: Option<nat>
    var evaluated: bool
    var polled: seq<Sample<D>>   // user buffers of the poll-type elements
    ghost var arrived: seq<(nat, Sample<D>)>
    ghost var outcomes: seq<bool>
    ghost var delivered: seq<(nat, Sample<D>)>
    ghost var logs: seq<seq<Sample<D>>>
    ghost const initial: System<D>   // the state after construction

    /** A group of freshly set up elements. */
    constructor (matcher: Matcher<D>, polled: seq<Sample<D>>)
      requires forall j :: 0 <= j < |matcher.elements| ==>
                 var e := matcher.elements[j];
                 && (e.Plain? ==> e.incoming == e.user)
                 && (e.Grouped? ==> e.matchIndex == 0 && Fresh(e.ring, e.user))
      requires matcher.lastMatch == 0 && !matcher.needPreRead && matcher.Idle()
      ensures this.matcher == matcher && this.polled == polled && Initial(State()) && Valid() && initial == State()
    {
      this.matcher, this.polled := matcher, polled;
      queues := seq(|matcher.elements|, j => []);
      notifications, lastOperation, outstanding, evaluated := [], Never, None, false;
      arrived, outcomes, delivered := [], [], [];
      logs := seq(|matcher.elements|,
        j requires 0 <= j < |matcher.elements| reads matcher => [matcher.elements[j].user]);
      initial := System(matcher.State(), seq(|matcher.elements|, j => []), [], Never, None, false, [], [], [],
                        seq(|matcher.elements|, j requires 0 <= j < |matcher.elements| reads matcher =>
                          [matcher.elements[j].user]));
      new;
      InitialInv(State());
      InitialPredicted(State());
    }

    ghost function State(): System<D>
      reads this, matcher
    {
      System(matcher.State(), queues, notifications, lastOperation, outstanding, evaluated, arrived, outcomes,
        delivered, logs)
    }

    ghost predicate Valid()
      reads this, matcher
    {
      Inv(State()) && matcher.Idle() && Predicted(initial, State())
    }

    /** Each update taken out of the queues so far has been let through exactly if the arrivals up to it say so, and the
        application has seen those let through. */
    ghost predicate UpToDate()
      reads this, matcher
    {
      FollowsArrivals(initial, State())
    }

    /** An update arrives at element i. */
    method Push(i: nat, u: Sample<D>)
      requires Valid() && Allowed(State(), Arrive(i, u))
      modifies this
      ensures Valid() && State() == R.Push(old(State()), i, u)
    {
      PushStep(State(), i, u);
      PushPredicted(initial, State(), i, u);
      queues := queues[i := queues[i] + [u]];
      notifications := notifications + [i];
      arrived := arrived + [(i, u)];
    }

    /** The application passes an element to DataConsistencyGroup::update(). */
    method Update(i: nat) returns (r: bool)
      requires Valid() && i < |matcher.elements|
      modifies matcher`updateCalled
      ensures Valid() && State() == Step(old(State()), CallUpdate(i)) && r == matcher.elements[i].Grouped?
      ensures outstanding.None? && lastOperation == At(i) ==> UpdateWasCalled(State())
    {
      UpdateCall(initial, State(), i);
      hide Inv, Predicted, UpdateWasCalled, Step;
      r := matcher.Update(i);
    }

    method HandlePreRead() returns (ok: bool)
      requires matcher.Idle() && (lastOperation.At? ==> lastOperation.index < |matcher.elements|)
      modifies matcher`elements, matcher`needPreRead, matcher`inPreReads
      ensures matcher.Idle()
      ensures (matcher.State(), ok) == R.HandlePreRead(old(State()))
    {
      ok := true;
      if lastOperation.Never? {
        var j := 0;
        while j < |matcher.elements|
          invariant j <= |matcher.elements| && matcher.Idle() && ok
          invariant PreReadFrom(old(matcher.State()), 0) == PreReadFrom(matcher.State(), j)
        {
          PreReadStep(matcher.State(), j);
          ok := matcher.PreRead(j);
          if !ok {
            return;
          }
          j := j + 1;
        }
      } else if lastOperation.At? {
        ok := matcher.PreRead(lastOperation.index);
      }
    }

    /** waitAny() with a notification pending. */
    method WaitAny() returns (ok: bool)
      requires matcher.Idle() && (lastOperation.At? ==> lastOperation.index < |matcher.elements|)
      requires notifications != []
      modifies this`outstanding, this`notifications, matcher`elements, matcher`needPreRead, matcher`inPreReads
      ensures matcher.Idle()
      ensures (State(), ok) == R.WaitAny(old(State()))
    {
      ok := HandlePreRead();
      if ok {
        outstanding, notifications := Some(notifications[0]), notifications[1..];
      }
    }

    /** Runs the continuation of the head of read queue i. */
    method Evaluate(i: nat) returns (ok: bool)
      requires WellFormed(State()) && Taken(outstanding) + notifications != [] && i == Oldest(State())
      modifies this`logs, matcher`elements, matcher`lastMatch
      ensures (State(), ok) == R.Evaluate(old(State()))
    {
      var u := queues[i][0];
      logs := logs[i := logs[i] + [u]];
      var e := matcher.elements[i];
      if e.Plain? {
        matcher.elements := matcher.elements[i := Plain(e.user, e.reading, u)];
        ok := true;
      } else {
        ok := matcher.ReadCallback(i, u);
      }
    }

    /** Removes the head of read queue i together with its notification. */
    method PopHead(i: nat, ghost ok: bool)
      requires WellFormed(State()) && Taken(outstanding) + notifications != [] && i == Oldest(State())
      modifies this`queues, this`notifications, this`outstanding, this`evaluated, this`outcomes
      ensures State() == Consume(old(State()), ok)
    {
      queues := queues[i := queues[i][1..]];
      if outstanding.None? {
        notifications := notifications[1..];
      }
      outstanding, evaluated := None, false;
      outcomes := outcomes + [ok];
    }

    /** Notification::accept() */
    method Accept() returns (ok: bool)
      requires WellFormed(State()) && matcher.Idle() && outstanding.Some?
      modifies this, matcher
      ensures polled == old(polled)
      ensures matcher.Idle()
      ensures (State(), ok) == R.Accept(old(State()))
    {
      var i := outstanding.value;
      assert i == Oldest(State());
      ok := true;
      if !evaluated {
        ok := Evaluate(i);
      }
      assert i == Oldest(State());
      PopHead(i, ok);
      if !ok {
        lastOperation := Discarded;
        return;
      }
      lastOperation := At(i);
      matcher.PostRead(i);
      delivered := delivered + [(i, matcher.elements[i].user)];
    }

    /** Peeks into the queue: an update which would be discarded is removed. */
    method PeekNext() returns (ok: bool)
      requires WellFormed(State()) && matcher.Idle() && outstanding.None? && !evaluated && notifications != []
      modifies this, matcher
      ensures polled == old(polled)
      ensures matcher.Idle() && WellFormed(State()) && outstanding.None?
      ensures if ok then State() == Peek(old(State())) && notifications != []
              else !evaluated && Peek(State()) == Peek(old(State())) && |notifications| < |old(notifications)|
    {
      ghost var s := State();
      var i := notifications[0];
      assert i == Oldest(s);
      ok := Evaluate(i);
      if ok {
        evaluated := true;
      } else {
        assert i == Oldest(State());
        PopHead(i, false);
      }
    }

    /** waitAnyNonBlocking(): removes updates which will be discarded until one comes which will be let through. */
    method WaitAnyNonBlocking() returns (ok: bool)
      requires WellFormed(State()) && matcher.Idle() && outstanding.None? && !evaluated
      modifies this, matcher
      ensures polled == old(polled)
      ensures matcher.Idle()
      ensures (State(), ok) == R.WaitAnyNonBlocking(old(State()))
    {
      ghost var s0 := State();
      while notifications != []
        invariant WellFormed(State()) && outstanding.None? && matcher.Idle() && !evaluated
        invariant polled == old(polled)
        invariant Peek(s0) == Peek(State())
        decreases |notifications|
      {
        ok := PeekNext();
        if ok {
          ok := WaitAny();
          return;
        }
      }
      ok := true;
    }

    /** processPolled(): reads what the registers of the poll-type elements currently hold. */
    method ProcessPolled(current: seq<Sample<D>>)
      requires |current| == |polled|
      modifies this`polled
      ensures polled == current
    {
      var k := 0;
      while k < |current|
        invariant 0 <= k <= |current| == |polled|
        invariant polled[..k] == current[..k]
      {
        polled := polled[k := current[k]];
        k := k + 1;
      }
      assert polled == polled[..k] && current == current[..k];
    }

    /** readAnyNonBlocking(). The loop over discarded updates is the one of waitAnyNonBlocking: what that hands out is
        always accepted. */
    method ReadAnyNonBlocking(current: seq<Sample<D>>) returns (r: Option<nat>)
      requires Valid() && outstanding.None? && UpdateWasCalled(State()) && |current| == |polled|
      modifies this, matcher
      ensures Valid() && UpToDate() && outstanding.None? && polled == current
      ensures NextVisible(old(State()), State(), r)
    {
      r := NextNonBlocking();
      ProcessPolled(current);
    }

    method NextNonBlocking() returns (r: Option<nat>)
      requires Valid() && outstanding.None? && UpdateWasCalled(State())
      modifies this, matcher
      ensures Valid() && UpToDate() && outstanding.None? && polled == old(polled)
      ensures NextVisible(old(State()), State(), r)
    {
      ghost var s := State();
      PollAccept(initial, s);
      var _ := WaitAnyNonBlocking();
      hide Inv, Predicted, FollowsArrivals, UpdateWasCalled;
      if outstanding.None? {
        return None;
      }
      var i := outstanding.value;
      var ok := Accept();
      r := Some(i);
    }

    /** readAny(). Without a pending notification the call would block, which is reported as None. */
    method ReadAny(current: seq<Sample<D>>) returns (r: Option<nat>)
      requires Valid() && outstanding.None? && UpdateWasCalled(State()) && |current| == |polled|
      modifies this, matcher
      ensures Valid() && UpToDate() && outstanding.None?
      ensures NextVisible(old(State()), State(), r)
      ensures polled == if r.Some? then current else old(polled)
    {
      r := Next();
      if r.Some? {
        ProcessPolled(current);
      }
    }

    /** The loop over discarded updates. */
    method Next() returns (r: Option<nat>)
      requires Valid() && outstanding.None? && UpdateWasCalled(State())
      modifies this, matcher
      ensures Valid() && UpToDate() && outstanding.None? && polled == old(polled)
      ensures NextVisible(old(State()), State(), r)
    {
      ghost var s := State();
      PredictedFollows(initial, s);
      AllTaken(s);
      while notifications != []
        invariant Valid() && UpToDate() && outstanding.None? && UpdateWasCalled(State())
        invariant AllDiscarded(s, State()) && polled == old(polled)
        invariant notifications == [] ==> |outcomes| == |arrived|
        decreases |notifications|
      {
        var i := notifications[0];
        var ok := DropOrTake(s);
        if ok {
          return Some(i);
        }
      }
      r := None;
    }

    /** One turn of the loop; the state has been s before the first one. */
    method DropOrTake(ghost s: System<D>) returns (ok: bool)
      requires Valid() && outstanding.None? && UpdateWasCalled(State()) && notifications != []
      requires AllDiscarded(s, State())
      modifies this, matcher
      ensures Valid() && UpToDate() && outstanding.None? && polled == old(polled)
      ensures |notifications| < |old(notifications)| && (notifications == [] ==> |outcomes| == |arrived|)
      ensures if ok then NextVisible(s, State(), Some(old(notifications)[0]))
              else UpdateWasCalled(State()) && AllDiscarded(s, State())
    {
      ghost var c := State();
      var i := notifications[0];
      ok := AcceptNext();
      AllTaken(State());
      hide Inv, Predicted, FollowsArrivals, UpdateWasCalled, AllDiscarded, NextVisible;
      if ok {
        DiscardedThenVisible(s, c, State(), i);
      } else {
        AllDiscardedTransitive(s, c, State());
      }
    }

    /** waitAny() with a notification pending, and accept(). */
    method AcceptNext() returns (ok: bool)
      requires Valid() && outstanding.None? && UpdateWasCalled(State()) && notifications != []
      modifies this, matcher
      ensures Valid() && UpToDate() && outstanding.None? && polled == old(polled)
      ensures |notifications| < |old(notifications)|
      ensures if ok then NextVisible(old(State()), State(), Some(old(notifications)[0]))
              else UpdateWasCalled(State()) && AllDiscarded(old(State()), State())
    {
      WaitAccept(initial, State());
      var ready := WaitAny();
      hide Inv, Predicted, FollowsArrivals, UpdateWasCalled;
      ok := Accept();
    }
  }
}

/**
 The historized data consistency protocol on values: what HistorizedMatcher and DataConsistencyDecorator do to the
 elements of one consistency group, and the joint invariant over versions, slot contents and transaction flags.

 Elements are numbered as in the ReadAnyGroup they belong to. Elements which are not in the consistency group are
 ordinary push-type accessors.
 */
module HistorizedMatcher {
  import opened Samples
  import opened HistoryRing

  /** A push element of the ReadAnyGroup, in the consistency group or not.
      user: the buffer seen by the application, reading: readTransactionInProgress of the decorator,
      ring: target accessor plus history, targetReading: readTransactionInProgress of the target. */
  datatype Element<D> =
    | Plain(user: Sample<D>, reading: bool, incoming: Sample<D>)
    | Grouped(user: Sample<D>, reading: bool, ring: Ring<D>, targetReading: bool, matchIndex: nat)

  datatype Group<D> = Group(
    elements: seq<Element<D>>,
    lastMatch: nat,             // _lastMatchingVersionNumber
    needPreRead: bool,          // _decoratorsNeedPreRead
    updateCalled: Option<nat>)  // _updateCalled

  // ----- searching for a match

  /** std::find on the version vector; |h| if there is no such version. */
  function Find<D>(h: seq<Sample<D>>, v: nat): (k: nat)
    ensures k <= |h|
    ensures k < |h| ==> h[k].version == v
    ensures forall j :: 0 <= j < k ==> h[j].version != v
  {
    if h == [] then 0
    else if h[0].version == v then 0
    else 1 + Find(h[1..], v)
  }

  /** Where findMatch looks up version v in one ring: the target first, then the history. */
  function MatchIndex<D>(r: Ring<D>, v: nat): (o: Option<nat>)
    ensures o.Some? <==> Holds(r, v)
    ensures o.Some? ==> o.value < |Slots(r)| && Slots(r)[o.value].version == v
  {
    var p := Find(r.history, v);
    assert Slots(r)[0] == r.target;
    assert forall k :: 0 <= k < |r.history| ==> Slots(r)[k + 1] == r.history[k];
    if r.target.version == v then Some(0)
    else if p < |r.history| then Some(p + 1)
    else None
  }

  predicate Missing<D>(e: Element<D>, v: nat) {
    e.Grouped? && MatchIndex(e.ring, v).None?
  }

  /** Position of the first element other than i, from j on, which does not hold v; |es| if there is none. */
  function FirstMissing<D>(es: seq<Element<D>>, i: nat, v: nat, j: nat): (n: nat)
    requires j <= |es|
    ensures j <= n <= |es|
    ensures n < |es| ==> n != i && Missing(es[n], v)
    ensures forall k :: j <= k < n && k != i ==> !Missing(es[k], v)
    decreases |es| - j
  {
    if j == |es| then j
    else if j != i && Missing(es[j], v) then j
    else FirstMissing(es, i, v, j + 1)
  }

  function Marked<D>(e: Element<D>, v: nat): Element<D> {
    if e.Grouped? && MatchIndex(e.ring, v).Some? then e.(matchIndex := MatchIndex(e.ring, v).value) else e
  }

  /** The match indices findMatch has written after looking at the first n elements. */
  function MarkUpTo<D>(es: seq<Element<D>>, i: nat, v: nat, n: nat): seq<Element<D>>
    requires n <= |es|
  {
    seq(|es|, j requires 0 <= j < |es| => if j < n && j != i then Marked(es[j], v) else es[j])
  }

  /** HistorizedMatcher::findMatch for a known element. */
  function FindMatch<D>(g: Group<D>, i: nat): (Group<D>, bool)
    requires i < |g.elements| && g.elements[i].Grouped?
  {
    var v := g.elements[i].ring.target.version;
    var n := FirstMissing(g.elements, i, v, 0);
    var es := MarkUpTo(g.elements, i, v, n);
    if n < |es| then (g.(elements := es), false)
    else (g.(elements := es[i := es[i].(matchIndex := 0)], lastMatch := v), true)
  }

  // ----- one received update

  /** The part of DataConsistencyDecorator::readCallback which happens inside the target of the receiving element. */
  function ReceiveInto<D>(e: Element<D>, u: Sample<D>): Element<D>
    requires e.Grouped?
  {
    e.(ring := Receive(e.ring, u), targetReading := false)
  }

  /** DataConsistencyDecorator::readCallback. The result false stands for the DiscardValueException. */
  function ReadCallback<D>(g: Group<D>, i: nat, u: Sample<D>): (Group<D>, bool)
    requires i < |g.elements| && g.elements[i].Grouped?
  {
    var (g', ok) := FindMatch(g.(elements := g.elements[i := ReceiveInto(g.elements[i], u)]), i);
    if ok then (g', true)
    else (g'.(elements := g'.elements[i := g'.elements[i].(targetReading := true)]), false)
  }

  // ----- pre-read and post-read of the decorators

  /** The end of DataConsistencyDecorator::doPostRead: meta data is copied from the matching slot, and the buffers are
      swapped. */
  function SwapMatching<D>(e: Element<D>): Element<D>
    requires e.Grouped? && e.matchIndex <= |e.ring.history|
  {
    var r := e.ring;
    if e.matchIndex == 0 then
      e.(user := r.target, ring := r.(target := r.target.(data := e.user.data)))
    else
      var k := e.matchIndex - 1;
      e.(user := r.history[k], ring := r.(history := r.history[k := r.history[k].(data := e.user.data)]))
  }

  /** TransferElement::postRead of a decorator which does not look at the other decorators. */
  function CompleteRead<D>(e: Element<D>): Element<D>
    requires e.Grouped? && e.matchIndex <= |e.ring.history|
  {
    if e.reading then SwapMatching(e).(reading := false) else e
  }

  ghost predicate IndicesValid<D>(es: seq<Element<D>>) {
    forall j :: 0 <= j < |es| && es[j].Grouped? ==> es[j].matchIndex <= |es[j].ring.history|
  }

  /** The elements after handleMissingPostReads has looked at the first n of them. */
  function CompleteUpTo<D>(es: seq<Element<D>>, caller: nat, lastMatch: nat, n: nat): seq<Element<D>>
    requires IndicesValid(es) && n <= |es|
  {
    seq(|es|, j requires 0 <= j < |es| =>
      if j < n && j != caller && es[j].Grouped? && lastMatch > es[j].user.version then CompleteRead(es[j]) else es[j])
  }

  /** HistorizedMatcher::handleMissingPostReads. */
  function HandleMissingPostReads<D>(g: Group<D>, caller: nat): Group<D>
    requires IndicesValid(g.elements)
  {
    g.(elements := CompleteUpTo(g.elements, caller, g.lastMatch, |g.elements|), needPreRead := true)
  }

  /** TransferElement::postRead of element i, called when its notification is accepted. */
  function PostRead<D>(g: Group<D>, i: nat): Group<D>
    requires i < |g.elements| && IndicesValid(g.elements)
  {
    var e := g.elements[i];
    if !e.reading then g
    else if e.Plain? then g.(elements := g.elements[i := Plain(e.incoming, false, e.incoming)])
    else
      var g' := if g.lastMatch > e.user.version then HandleMissingPostReads(g, i) else g;
      g'.(elements := g'.elements[i := CompleteRead(e)])
  }

  function StartRead<D>(e: Element<D>): Element<D> {
    if e.reading then e
    else if e.Plain? then Plain(e.user, true, e.incoming)
    else Grouped(e.user, true, e.ring, true, e.matchIndex)
  }

  /** The elements after handleMissingPreReads has looked at the first n of them. */
  function StartUpTo<D>(es: seq<Element<D>>, caller: nat, n: nat): seq<Element<D>>
    requires n <= |es|
  {
    seq(|es|, j requires 0 <= j < |es| => if j < n && j != caller && es[j].Grouped? then StartRead(es[j]) else es[j])
  }

  /** TransferElement::preRead of element i. The result false stands for the logic_error thrown by
      HistorizedMatcher::handleMissingPreReads when DataConsistencyGroup::update has not been called. */
  function PreRead<D>(g: Group<D>, i: nat): (Group<D>, bool)
    requires i < |g.elements|
  {
    var e := g.elements[i];
    if e.reading then (g, true)
    else if e.Plain? then (g.(elements := g.elements[i := StartRead(e)]), true)
    else if g.needPreRead && g.updateCalled != Some(i) then
      (g.(elements := g.elements[i := Grouped(e.user, true, e.ring, e.targetReading, e.matchIndex)]), false)
    else
      (g.(elements := StartUpTo(g.elements, i, |g.elements|)[i := StartRead(e)], needPreRead := false), true)
  }

  /** DataConsistencyGroup::update in this matching mode: remembers the call, unless the element is not in the group.
      The result false means that the application can ignore the update as far as consistency is concerned. */
  function Update<D>(g: Group<D>, i: nat): (Group<D>, bool) {
    if i < |g.elements| && g.elements[i].Grouped? then (g.(updateCalled := Some(i)), true) else (g, false)
  }

  /** HistorizedMatcher::isConsistent. */
  ghost predicate Consistent<D>(g: Group<D>) {
    forall j, k :: 0 <= j < |g.elements| && 0 <= k < |g.elements| && g.elements[j].Grouped? && g.elements[k].Grouped?
      ==> g.elements[j].user.version == g.elements[k].user.version
  }

  // ----- the joint invariant

  /** Everything an element has received so far, starting with its initial value. */
  ghost predicate ValidLog<D>(log: seq<Sample<D>>) {
    log != [] && NonDecreasing(log) && forall k :: 1 <= k < |log| ==> log[k].version > 0
  }

  /** A slot labelled with a version newer than what the application sees holds exactly what was received with that
      version. Slots with older labels may hold swapped-out buffers. */
  ghost predicate Genuine<D>(e: Element<D>, log: seq<Sample<D>>)
    requires e.Grouped?
  {
    forall k :: 0 <= k < |Slots(e.ring)| && Slots(e.ring)[k].version > e.user.version ==> Slots(e.ring)[k] in log
  }

  ghost predicate ElementOk<D>(e: Element<D>, log: seq<Sample<D>>) {
    && ValidLog(log)
    && e.user in log
    && (e.Plain? ==> e.incoming in log)
    && (e.Grouped? ==>
      && RingShape(e.ring, log)
      && e.matchIndex <= |e.ring.history|
      && Genuine(e, log))
  }

  ghost predicate ElementsOk<D>(es: seq<Element<D>>, logs: seq<seq<Sample<D>>>) {
    |logs| == |es| && forall j :: 0 <= j < |es| ==> ElementOk(es[j], logs[j])
  }

  ghost predicate AllHold<D>(es: seq<Element<D>>, v: nat) {
    forall j :: 0 <= j < |es| && es[j].Grouped? ==> Holds(es[j].ring, v)
  }

  ghost predicate AllShow<D>(es: seq<Element<D>>, v: nat) {
    forall j :: 0 <= j < |es| && es[j].Grouped? ==> es[j].user.version == v
  }

  /** No match has been overlooked: a version held by all elements is not newer than the last match, unless the
      application saw it everywhere from the start. */
  ghost predicate NoneOverlooked<D>(g: Group<D>) {
    forall v :: v > 0 && AllHold(g.elements, v) ==> v <= g.lastMatch || AllShow(g.elements, v)
  }

  /** Before the first match the application sees the initial values. */
  ghost predicate InitialUntilMatch<D>(g: Group<D>, logs: seq<seq<Sample<D>>>)
    requires ElementsOk(g.elements, logs)
  {
    g.lastMatch == 0 ==>
      forall j :: 0 <= j < |g.elements| && g.elements[j].Grouped? ==> g.elements[j].user.version == logs[j][0].version
  }

  /** The state between two accepted updates. */
  ghost predicate Settled<D>(g: Group<D>, logs: seq<seq<Sample<D>>>) {
    && ElementsOk(g.elements, logs)
    && NoneOverlooked(g)
    && InitialUntilMatch(g, logs)
    && (g.lastMatch > 0 ==> AllShow(g.elements, g.lastMatch))
  }

  /** The state after element i has completed a match and before its post-read. */
  ghost predicate MatchPending<D>(g: Group<D>, i: nat, logs: seq<seq<Sample<D>>>) {
    && ElementsOk(g.elements, logs)
    && NoneOverlooked(g)
    && g.lastMatch > 0
    && i < |g.elements| && g.elements[i].Grouped?
    && g.elements[i].matchIndex == 0
    && g.elements[i].ring.target.version == g.lastMatch
    && g.elements[i].ring.target in logs[i]
    && (forall j :: 0 <= j < |g.elements| && g.elements[j].Grouped? ==>
      && g.elements[j].user.version <= g.lastMatch
      && Slots(g.elements[j].ring)[g.elements[j].matchIndex].version == g.lastMatch)
    && (g.elements[i].user.version == g.lastMatch ==> AllShow(g.elements, g.lastMatch))
  }

  // ----- receiving

  /** Receiving removes labels or adds the received one, nothing else. */
  lemma ReceiveHolds<D>(r: Ring<D>, u: Sample<D>, w: nat)
    requires w > 0 && w != u.version
    requires Holds(Receive(r, u), w)
    ensures Holds(r, w)
  {
    var s, s' := Slots(r), Slots(Receive(r, u));
    var k :| 0 <= k < |s'| && s'[k].version == w;
    var n := |r.history|;
    assert forall j :: 0 <= j < n ==> s[j + 1] == r.history[j];
    if k > 0 {
      assert s'[k] == Receive(r, u).history[k - 1];
      if k == 1 {
        assert s[0].version == w;
      } else if r.history[0].version > 0 {
        assert s[k - 1].version == w;
      } else {
        assert s[k].version == w;
      }
    }
  }

  /** Slots keep their content while they move, so labels newer than the user's version stay genuine. */
  lemma ReceiveKeepsElementOk<D>(e: Element<D>, log: seq<Sample<D>>, u: Sample<D>)
    requires ElementOk(e, log) && e.Grouped?
    requires u.version > 0 && log[|log| - 1].version <= u.version
    ensures ElementOk(ReceiveInto(e, u), log + [u])
  {
    ReceiveKeepsShape(e.ring, log, u);
    ReceiveKeepsGenuine(e, log, u);
  }

  lemma ReceiveKeepsGenuine<D>(e: Element<D>, log: seq<Sample<D>>, u: Sample<D>)
    requires e.Grouped? && Genuine(e, log) && u.version > 0
    ensures Genuine(ReceiveInto(e, u), log + [u])
  {
    var r, r' := e.ring, Receive(e.ring, u);
    var s, s' := Slots(r), Slots(r');
    assert forall j :: 0 <= j < |r.history| ==> s[j + 1] == r.history[j];
    forall k | 0 <= k < |s'| && s'[k].version > e.user.version ensures s'[k] in log + [u] {
      if k > 0 {
        assert s'[k] == r'.history[k - 1];
        if k == 1 {
          assert s'[k] == s[0];
        } else if r.history[0].version > 0 {
          assert s'[k] == s[k - 1];
        } else {
          assert s'[k] == s[k];
        }
      }
    }
  }

  /** A ring in shape only holds versions of its log, and its target carries the latest one. */
  lemma HeldIsLogged<D>(r: Ring<D>, log: seq<Sample<D>>, v: nat)
    requires ValidLog(log) && RingShape(r, log)
    requires v > 0 && Holds(r, v)
    ensures log[0].version <= v <= log[|log| - 1].version
  {
    DistinctAscends(log);
    var d := Distinct(log);
    HoldsIffRecent(r, log, v);
    assert v in d;
    DistinctComplete(log, v);
  }

  lemma TargetIsLatest<D>(e: Element<D>, log: seq<Sample<D>>)
    requires ElementOk(e, log) && e.Grouped?
    ensures e.ring.target.version == log[|log| - 1].version
    ensures e.user.version <= e.ring.target.version
  {
    DistinctAscends(log);
  }

  /** Everything but the receiving ring, the match indices and the last matching version stays as it is. */
  ghost predicate OnlyReceived<D>(es: seq<Element<D>>, i: nat, u: Sample<D>, es': seq<Element<D>>) {
    && |es'| == |es|
    && i < |es| && es[i].Grouped?
    && forall j :: 0 <= j < |es| ==>
         && es'[j].user == es[j].user
         && es'[j].reading == es[j].reading
         && (es[j].Plain? ==> es'[j] == es[j])
         && (es[j].Grouped? ==>
           && es'[j].Grouped?
           && es'[j].ring == (if j == i then Receive(es[i].ring, u) else es[j].ring)
           && (es'[j].matchIndex == es[j].matchIndex || es'[j].matchIndex < |Slots(es'[j].ring)|))
  }

  lemma ReadCallbackFrame<D>(g: Group<D>, i: nat, u: Sample<D>)
    requires i < |g.elements| && g.elements[i].Grouped?
    ensures var (g', ok) := ReadCallback(g, i, u);
            && OnlyReceived(g.elements, i, u, g'.elements)
            && g'.needPreRead == g.needPreRead && g'.updateCalled == g.updateCalled
            && g'.lastMatch == (if ok then u.version else g.lastMatch)
            && (ok <==> forall j :: 0 <= j < |g.elements| && j != i && g.elements[j].Grouped? ==>
              Holds(g.elements[j].ring, u.version))
            && (ok ==> forall j :: 0 <= j < |g.elements| && g.elements[j].Grouped? ==>
                  Slots(g'.elements[j].ring)[g'.elements[j].matchIndex].version == u.version)
            && (ok ==> g'.elements[i].matchIndex == 0 && g'.elements[i].ring.target == u)
  {
    var es1 := g.elements[i := ReceiveInto(g.elements[i], u)];
    assert es1[i].ring.target == u;
    FindMatchFrame(g.(elements := es1), i);
  }

  /** A search which touches match indices only. */
  lemma FindMatchFrame<D>(g: Group<D>, i: nat)
    requires i < |g.elements| && g.elements[i].Grouped?
    ensures var (g', ok) := FindMatch(g, i);
            var v := g.elements[i].ring.target.version;
            && g' == g.(elements := g'.elements, lastMatch := if ok then v else g.lastMatch)
            && |g'.elements| == |g.elements|
            && (forall j :: 0 <= j < |g.elements| ==> Searched(g.elements[j], g'.elements[j]))
            && (ok <==> forall j :: 0 <= j < |g.elements| && j != i && g.elements[j].Grouped? ==>
              Holds(g.elements[j].ring, v))
            && (ok ==> forall j :: 0 <= j < |g.elements| && g.elements[j].Grouped? ==>
                  Slots(g'.elements[j].ring)[g'.elements[j].matchIndex].version == v)
            && (ok ==> g'.elements[i].matchIndex == 0)
  {
    var v := g.elements[i].ring.target.version;
    forall j | 0 <= j < |g.elements| && g.elements[j].Grouped?
      ensures Missing(g.elements[j], v) <==> !Holds(g.elements[j].ring, v)
    {
    }
  }

  ghost predicate Searched<D>(e: Element<D>, e': Element<D>) {
    e' == e || (e.Grouped? && e'.Grouped? && e' == e.(matchIndex := e'.matchIndex) && e'.matchIndex < |Slots(e.ring)|)
  }

  lemma OnlyReceivedElementsOk<D>(es: seq<Element<D>>, i: nat, u: Sample<D>, es': seq<Element<D>>,
                                  logs: seq<seq<Sample<D>>>)
    requires ElementsOk(es, logs) && OnlyReceived(es, i, u, es')
    requires u.version > 0 && logs[i][|logs[i]| - 1].version <= u.version
    ensures ElementsOk(es', logs[i := logs[i] + [u]])
  {
    forall j | 0 <= j < |es'| ensures ElementOk(es'[j], logs[i := logs[i] + [u]][j]) {
      assert ElementOk(es[j], logs[j]);
      if j == i { ReceiveKeepsElementOk(es[i], logs[i], u); }
    }
  }

  /** A version that all elements hold after the update is the received one, or all of them held it before. */
  lemma OnlyReceivedHolds<D>(es: seq<Element<D>>, i: nat, u: Sample<D>, es': seq<Element<D>>, w: nat)
    requires OnlyReceived(es, i, u, es')
    requires w > 0 && w != u.version && AllHold(es', w)
    ensures AllHold(es, w)
  {
    assert Holds(es'[i].ring, w);
    ReceiveHolds(es[i].ring, u, w);
    forall j | 0 <= j < |es| && es[j].Grouped? ensures Holds(es[j].ring, w) { assert Holds(es'[j].ring, w); }
  }

  lemma ReadCallbackOverlooksNone<D>(g: Group<D>, i: nat, u: Sample<D>, logs: seq<seq<Sample<D>>>)
    requires Settled(g, logs)
    requires i < |g.elements| && g.elements[i].Grouped?
    requires u.version > 0 && logs[i][|logs[i]| - 1].version <= u.version
    ensures NoneOverlooked(ReadCallback(g, i, u).0)
  {
    hide RingShape, Genuine, Holds, Receive;
    var (g', ok) := ReadCallback(g, i, u);
    var es, es' := g.elements, g'.elements;
    ReadCallbackFrame(g, i, u);
    TargetIsLatest(es[i], logs[i]);
    forall w | w > 0 && AllHold(es', w) ensures w <= g'.lastMatch || AllShow(es', w) {
      if w != u.version {
        OnlyReceivedHolds(es, i, u, es', w);
        assert w <= g.lastMatch || AllShow(es, w);
        assert g.lastMatch > 0 ==> es[i].user.version == g.lastMatch;
      }
    }
  }

  /** No element shows a newer version than the one just matched, and if the receiving element already shows it then so
      do all others. */
  lemma MatchIsNewest<D>(g: Group<D>, i: nat, v: nat, logs: seq<seq<Sample<D>>>)
    requires Settled(g, logs)
    requires i < |g.elements| && g.elements[i].Grouped?
    requires v > 0 && logs[i][|logs[i]| - 1].version <= v
    requires forall j :: 0 <= j < |g.elements| && j != i && g.elements[j].Grouped? ==> Holds(g.elements[j].ring, v)
    ensures forall j :: 0 <= j < |g.elements| && g.elements[j].Grouped? ==> g.elements[j].user.version <= v
    ensures g.elements[i].user.version == v ==> AllShow(g.elements, v)
  {
    var es := g.elements;
    TargetIsLatest(es[i], logs[i]);
    forall j | 0 <= j < |es| && es[j].Grouped? ensures es[j].user.version <= v {
      if j != i {
        HeldIsLogged(es[j].ring, logs[j], v);
        assert g.lastMatch > 0 ==> es[j].user.version == es[i].user.version;
      }
    }
    if es[i].user.version == v {
      assert Slots(es[i].ring)[0].version == v;
      assert AllHold(es, v);
    }
  }

  /** One received update: afterwards a match is pending, or nothing has changed for the application. */
  lemma ReadCallbackStep<D>(g: Group<D>, i: nat, u: Sample<D>, logs: seq<seq<Sample<D>>>)
    requires Settled(g, logs)
    requires i < |g.elements| && g.elements[i].Grouped?
    requires u.version > 0 && logs[i][|logs[i]| - 1].version <= u.version
    ensures var (g', ok) := ReadCallback(g, i, u);
            var logs' := logs[i := logs[i] + [u]];
            && (ok ==> MatchPending(g', i, logs') && g'.lastMatch == u.version && g'.elements[i].ring.target == u)
            && (!ok ==> Settled(g', logs') && g'.lastMatch == g.lastMatch)
  {
    var (g', ok) := ReadCallback(g, i, u);
    var es, es' := g.elements, g'.elements;
    ReadCallbackFrame(g, i, u);
    OnlyReceivedElementsOk(es, i, u, es', logs);
    ReadCallbackOverlooksNone(g, i, u, logs);
    if ok {
      MatchIsNewest(g, i, u.version, logs);
      assert es[i].user.version == u.version ==> AllShow(es', u.version);
    } else if g.lastMatch > 0 {
      assert AllShow(es, g.lastMatch);
      assert AllShow(es', g.lastMatch);
    }
  }

  // ----- accepting

  /** Swapping the matching slot into the user buffer keeps the element intact and shows the matched version. */
  lemma SwapKeepsElementOk<D>(e: Element<D>, log: seq<Sample<D>>)
    requires ElementOk(e, log) && e.Grouped?
    requires var s := Slots(e.ring)[e.matchIndex]; s in log && e.user.version <= s.version
    ensures ElementOk(SwapMatching(e), log)
    ensures SwapMatching(e).user == Slots(e.ring)[e.matchIndex]
    ensures forall v :: Holds(SwapMatching(e).ring, v) <==> Holds(e.ring, v)
  {
    var e' := SwapMatching(e);
    var s, s' := Slots(e.ring), Slots(e'.ring);
    assert forall k :: 0 <= k < |s| && k != e.matchIndex ==> s'[k] == s[k];
    assert forall k :: 0 <= k < |s| ==> s'[k].version == s[k].version;
    forall v ensures Holds(e'.ring, v) <==> Holds(e.ring, v) {
      if k :| 0 <= k < |s| && s[k].version == v { assert s'[k].version == v; }
      if k :| 0 <= k < |s'| && s'[k].version == v { assert s[k].version == v; }
    }
  }

  lemma ExchangeOne<X>(b: seq<X>, k: nat, x: X)
    requires k < |b|
    ensures multiset([b[k]] + b[k := x]) == multiset([x] + b)
  {
    assert b[k] in multiset(b);
    assert multiset(b[k := x]) == multiset(b) - multiset{b[k]} + multiset{x};
  }

  lemma SwapExchanges<D>(e: Element<D>)
    requires e.Grouped? && e.matchIndex <= |e.ring.history|
    ensures SwapMatching(e).user.data == Buffers(e.ring)[e.matchIndex]
    ensures Buffers(SwapMatching(e).ring) == Buffers(e.ring)[e.matchIndex := e.user.data]
  {
    assert forall j :: 0 < j < |Slots(e.ring)| ==> Slots(e.ring)[j] == e.ring.history[j - 1];
  }

  /** The buffers of application, target and history are exchanged, none is copied or lost. */
  lemma SwapPermutes<D>(e: Element<D>)
    requires e.Grouped? && e.matchIndex <= |e.ring.history|
    ensures multiset([SwapMatching(e).user.data] + Buffers(SwapMatching(e).ring)) ==
            multiset([e.user.data] + Buffers(e.ring))
  {
    SwapExchanges(e);
    hide SwapMatching;
    ExchangeOne(Buffers(e.ring), e.matchIndex, e.user.data);
  }

  ghost predicate AllReading<D>(es: seq<Element<D>>) {
    forall j :: 0 <= j < |es| ==> es[j].reading
  }

  /** Accepting a pending match: provided every decorator's read transaction is in progress, all grouped elements show
      the matched version afterwards, with data they really received under that version. */
  lemma PostReadStep<D>(g: Group<D>, i: nat, logs: seq<seq<Sample<D>>>)
    requires MatchPending(g, i, logs) && AllReading(g.elements)
    ensures var g' := PostRead(g, i);
            && Settled(g', logs)
            && g'.lastMatch == g.lastMatch
            && AllShow(g'.elements, g.lastMatch)
            && g'.elements[i].user == g.elements[i].ring.target
  {
    var g' := PostRead(g, i);
    var es, es' := g.elements, g'.elements;
    forall j | 0 <= j < |es|
      ensures ElementOk(es'[j], logs[j])
      ensures es[j].Grouped? ==> es'[j].Grouped? && es'[j].user.version == g.lastMatch
      ensures es[j].Grouped? ==> forall v :: Holds(es'[j].ring, v) <==> Holds(es[j].ring, v)
      ensures es[j].Plain? ==> es'[j].Plain?
    {
      assert ElementOk(es[j], logs[j]);
      if es[j].Grouped? && (j == i || es[j].user.version < g.lastMatch) {
        SwapKeepsElementOk(es[j], logs[j]);
      }
    }
    forall v | v > 0 && AllHold(es', v) ensures v <= g.lastMatch {
      forall j | 0 <= j < |es| && es[j].Grouped? ensures Holds(es[j].ring, v) { assert Holds(es'[j].ring, v); }
      assert AllHold(es, v);
    }
  }

  /** Ordinary elements are not touched by a match. */
  lemma PostReadKeepsPlain<D>(g: Group<D>, i: nat)
    requires i < |g.elements| && IndicesValid(g.elements)
    ensures forall j :: 0 <= j < |g.elements| && j != i && g.elements[j].Plain? ==>
        PostRead(g, i).elements[j] == g.elements[j]
  {
  }

  /** Accepting an update of an ordinary element. */
  lemma PlainPostReadStep<D>(g: Group<D>, i: nat, logs: seq<seq<Sample<D>>>)
    requires Settled(g, logs) && i < |g.elements| && g.elements[i].Plain? && g.elements[i].reading
    ensures var g' := PostRead(g, i);
            && Settled(g', logs)
            && g' == g.(elements := g.elements[i := g'.elements[i]])
            && g'.elements[i].Plain? && g'.elements[i].user == g.elements[i].incoming
  {
    var g' := PostRead(g, i);
    PlainChange(g, i, g'.elements[i], logs, logs);
  }

  /** Changing an ordinary element, and its log, does not concern the group. */
  lemma PlainChange<D>(g: Group<D>, i: nat, e: Element<D>, logs: seq<seq<Sample<D>>>, logs': seq<seq<Sample<D>>>)
    requires Settled(g, logs) && i < |g.elements| && g.elements[i].Plain? && e.Plain?
    requires |logs'| == |logs| && ElementOk(e, logs'[i])
    requires forall j :: 0 <= j < |logs| && j != i ==> logs'[j] == logs[j]
    ensures Settled(g.(elements := g.elements[i := e]), logs')
  {
    var es, es' := g.elements, g.elements[i := e];
    assert forall j :: 0 <= j < |es| && es'[j].Grouped? ==> es'[j] == es[j];
    forall v | v > 0 && AllHold(es', v) ensures v <= g.lastMatch || AllShow(es', v) {
      assert AllHold(es, v);
      assert v <= g.lastMatch || AllShow(es, v);
    }
  }

  // ----- pre-read repair

  /** Two states which differ in transaction flags only. */
  ghost predicate SameButFlags<D>(es: seq<Element<D>>, es': seq<Element<D>>) {
    && |es'| == |es|
    && forall j :: 0 <= j < |es| ==>
         && es'[j].user == es[j].user
         && (es[j].reading ==> es'[j].reading)
         && es'[j].Plain? == es[j].Plain?
         && (es[j].Plain? ==> es'[j].incoming == es[j].incoming)
         && (es[j].Grouped? ==> es'[j].ring == es[j].ring && es'[j].matchIndex == es[j].matchIndex)
  }

  lemma FlagsDoNotMatter<D>(g: Group<D>, g': Group<D>, i: nat, logs: seq<seq<Sample<D>>>)
    requires SameButFlags(g.elements, g'.elements) && g'.lastMatch == g.lastMatch
    ensures Settled(g, logs) ==> Settled(g', logs)
    ensures MatchPending(g, i, logs) ==> MatchPending(g', i, logs)
  {
    var es, es' := g.elements, g'.elements;
    if ElementsOk(es, logs) {
      forall j | 0 <= j < |es| ensures ElementOk(es'[j], logs[j]) { assert ElementOk(es[j], logs[j]); }
    }
    forall v | AllHold(es', v) ensures AllHold(es, v) {
      forall j | 0 <= j < |es| && es[j].Grouped? ensures Holds(es[j].ring, v) { assert Holds(es'[j].ring, v); }
    }
    assert forall v :: AllShow(es, v) ==> AllShow(es', v);
  }

  /** preRead only sets flags. It fails exactly when decorators wait for their pre-read and the last update has not been
      passed to DataConsistencyGroup::update. */
  lemma PreReadStep<D>(g: Group<D>, i: nat)
    requires i < |g.elements|
    ensures var (g', ok) := PreRead(g, i);
            && SameButFlags(g.elements, g'.elements)
            && g'.lastMatch == g.lastMatch && g'.updateCalled == g.updateCalled
            && g'.elements[i].reading
            && (g'.needPreRead ==> g.needPreRead)
            && (ok <==> (!g.elements[i].reading && g.elements[i].Grouped? && g.needPreRead ==>
              g.updateCalled == Some(i)))
            && (ok && g.elements[i].Grouped? && !g.elements[i].reading ==>
                  !g'.needPreRead && forall j :: 0 <= j < |g.elements| && g.elements[j].Grouped? ==>
                    g'.elements[j].reading)
  {
  }
}

/**
 HistorizedMatcher and DataConsistencyDecorator as an object whose methods update its fields. Every method is tied to
 the function of the same name in module HistorizedMatcher.
 */
module HistorizedMatcherObject {
  import opened Samples
  import opened HistoryRing
  import opened H = HistorizedMatcher

  class Matcher<D> {
    var elements: seq<Element<D>>
    var lastMatch: nat
    var needPreRead: bool
    var updateCalled: Option<nat>
    var inPreReads: bool   // _handleMissingPreReadsCalled
    var inPostReads: bool  // _handleMissingPostReadsCalled

    constructor (elements: seq<Element<D>>)
      ensures State() == Group(elements, 0, false, None)
      ensures Idle()
    {
      this.elements := elements;
      lastMatch, needPreRead, updateCalled := 0, false, None;
      inPreReads, inPostReads := false, false;
    }

    function State(): Group<D>
      reads this
    {
      Group(elements, lastMatch, needPreRead, updateCalled)
    }

    /** No pre-read or post-read handler is active. */
    predicate Idle()
      reads this
    {
      !inPreReads && !inPostReads
    }

    predicate IsGrouped(i: nat)
      reads this
    {
      i < |elements| && elements[i].Grouped?
    }

    /** DataConsistencyGroup::update(). Only members of the group count, whose pre-read is possible afterwards. */
    method Update(i: nat) returns (r: bool)
      requires i < |elements|
      modifies this`updateCalled
      ensures (State(), r) == H.Update(old(State()), i) && r == elements[i].Grouped?
      ensures r ==> H.PreRead(State(), i).1
      ensures !r ==> updateCalled == old(updateCalled)
    {
      r := elements[i].Grouped?;
      if r {
        updateCalled := Some(i);
      }
    }

    // ----- receiving

    /** The loop moves buffers by swapping neighbours, so that the oldest buffer wanders to the front and from there
        into the target. */
    method UpdateHistory(i: nat)
      requires IsGrouped(i)
      modifies this`elements
      ensures elements == old(elements)[i := old(elements[i]).(ring := Rotate(old(elements[i].ring)))]
    {
      var e := elements[i];
      var h := e.ring.history;
      var n := |h|;
      if n == 0 {
        return;
      }
      var h0 := h;
      if h[0].version > 0 {
        var k := n - 1;
        while k > 0
          invariant 0 <= k < n == |h|
          invariant forall j :: k < j < n ==> h[j] == h0[j - 1]
          invariant forall j :: 0 <= j < k ==> h[j] == h0[j]
          invariant h[k].data == h0[n - 1].data
        {
          var newer := h[k - 1];
          h := h[k - 1 := newer.(data := h[k].data)][k := newer];
          k := k - 1;
        }
        assert h[1..] == h0[..n - 1];
        assert h[0 := e.ring.target] == [e.ring.target] + h[1..];
      }
      var buffer := h[0].data;
      h := h[0 := e.ring.target];
      elements := elements[i := e.(ring := Ring(e.ring.target.(data := buffer), h))];
    }

    method FindMatch(i: nat) returns (ok: bool)
      requires IsGrouped(i)
      modifies this`elements, this`lastMatch
      ensures (State(), ok) == H.FindMatch(old(State()), i)
    {
      var v := elements[i].ring.target.version;
      ghost var es := elements;
      var j := 0;
      while j < |elements|
        invariant j <= |elements| == |es|
        invariant elements == MarkUpTo(es, i, v, j)
        invariant FirstMissing(es, i, v, 0) == FirstMissing(es, i, v, j)
        invariant lastMatch == old(lastMatch)
      {
        if j != i && elements[j].Grouped? {
          var e := elements[j];
          if e.ring.target.version == v {
            elements := elements[j := e.(matchIndex := 0)];
          } else {
            var p := Find(e.ring.history, v);
            if p == |e.ring.history| {
              return false;
            }
            elements := elements[j := e.(matchIndex := p + 1)];
          }
        }
        assert elements == MarkUpTo(es, i, v, j + 1);
        j := j + 1;
      }
      elements := elements[i := elements[i].(matchIndex := 0)];
      lastMatch := v;
      ok := true;
    }

    method CheckUpdate(i: nat) returns (ok: bool)
      requires IsGrouped(i)
      modifies this`elements, this`lastMatch
      ensures var e := old(elements[i]);
              (State(), ok) == H.FindMatch(old(State()).(elements :=
                old(elements)[i := e.(ring := DropDuplicate(e.ring))]), i)
    {
      var e := elements[i];
      var h := e.ring.history;
      if |h| > 0 && e.ring.target.version == h[0].version {
        elements := elements[i := e.(ring := e.ring.(history := h[0 := h[0].(version := 0)]))];
      } else {
        assert elements[i := e.(ring := DropDuplicate(e.ring))] == elements;
      }
      ok := FindMatch(i);
    }

    /** DataConsistencyDecorator::readCallback for an update u at the head of the target's queue. */
    method ReadCallback(i: nat, u: Sample<D>) returns (ok: bool)
      requires IsGrouped(i)
      modifies this`elements, this`lastMatch
      ensures (State(), ok) == H.ReadCallback(old(State()), i, u)
    {
      ghost var e0 := elements[i];
      elements := elements[i := elements[i].(targetReading := true)];
      UpdateHistory(i);
      // the target's postRead
      var e := elements[i];
      elements := elements[i := e.(ring := e.ring.(target := u), targetReading := false)];
      assert elements[i].(ring := DropDuplicate(elements[i].ring)) == ReceiveInto(e0, u);
      assert elements[i := ReceiveInto(e0, u)] == old(elements)[i := ReceiveInto(e0, u)];
      ok := CheckUpdate(i);
      if !ok {
        elements := elements[i := elements[i].(targetReading := true)];
      }
    }

    // ----- pre-read

    /** TransferElement::preRead of the decorator of element i. Calls from within handleMissingPreReads concern this
        element only. */
    method PreRead(i: nat) returns (ok: bool)
      requires i < |elements|
      modifies this`elements, this`needPreRead, this`inPreReads
      ensures inPreReads == old(inPreReads)
      ensures old(inPreReads) ==>
          ok && needPreRead == old(needPreRead) && elements == old(elements)[i := StartRead(old(elements[i]))]
      ensures !old(inPreReads) ==> (State(), ok) == H.PreRead(old(State()), i)
      decreases if inPreReads then 0 else 1, 1
    {
      var e := elements[i];
      if e.reading {
        assert elements == elements[i := StartRead(e)];
        return true;
      }
      if e.Plain? {
        elements := elements[i := Plain(e.user, true, e.incoming)];
        return true;
      }
      elements := elements[i := Grouped(e.user, true, e.ring, e.targetReading, e.matchIndex)];
      // doPreRead of the decorator
      ok := HandleMissingPreReads(i);
      if ok {
        // the target's preRead
        elements := elements[i := elements[i].(targetReading := true)];
        assert !inPreReads ==> elements == StartUpTo(old(elements), i, |old(elements)|)[i := StartRead(e)];
      }
    }

    method HandleMissingPreReads(caller: nat) returns (ok: bool)
      requires caller < |elements|
      modifies this`elements, this`needPreRead, this`inPreReads
      ensures inPreReads == old(inPreReads)
      ensures old(inPreReads) ==> ok && elements == old(elements) && needPreRead == old(needPreRead)
      ensures !old(inPreReads) ==> ok == !(old(needPreRead) && old(updateCalled) != Some(caller))
      ensures !ok ==> elements == old(elements) && needPreRead == old(needPreRead)
      ensures !old(inPreReads) && ok ==> elements == StartUpTo(old(elements), caller, |old(elements)|) && !needPreRead
      decreases if inPreReads then 0 else 1, 0
    {
      if inPreReads {
        return true;
      }
      inPreReads := true;
      if needPreRead && updateCalled != Some(caller) {
        inPreReads := false;
        return false;
      }
      ghost var es := elements;
      var j := 0;
      while j < |elements|
        invariant j <= |elements| == |es|
        invariant inPreReads
        invariant elements == StartUpTo(es, caller, j)
      {
        if j != caller && elements[j].Grouped? {
          var _ := PreRead(j);
        }
        assert elements == StartUpTo(es, caller, j + 1);
        j := j + 1;
      }
      needPreRead := false;
      inPreReads := false;
      ok := true;
    }

    // ----- post-read

    /** TransferElement::postRead of element i. Calls from within handleMissingPostReads concern this element only. */
    method PostRead(i: nat)
      requires i < |elements| && IndicesValid(elements)
      requires inPostReads ==> elements[i].Grouped?
      modifies this`elements, this`needPreRead, this`inPostReads
      ensures inPostReads == old(inPostReads)
      ensures old(inPostReads) ==>
          needPreRead == old(needPreRead) && elements == old(elements)[i := CompleteRead(old(elements[i]))]
      ensures !old(inPostReads) ==> State() == H.PostRead(old(State()), i)
      decreases if inPostReads then 0 else 1, 1
    {
      var e := elements[i];
      if !e.reading {
        assert elements == elements[i := e];
        return;
      }
      if e.Plain? {
        elements := elements[i := Plain(e.incoming, false, e.incoming)];
        return;
      }
      elements := elements[i := Grouped(e.user, false, e.ring, e.targetReading, e.matchIndex)];
      // doPostRead of the decorator
      if lastMatch > e.user.version {
        HandleMissingPostReads(i);
      }
      var r := e.ring;
      if e.matchIndex > 0 {
        var k := e.matchIndex - 1;
        var matching := r.history[k];
        elements := elements[i :=
          Grouped(matching, false, r.(history := r.history[k := matching.(data := e.user.data)]), e.targetReading,
            e.matchIndex)];
      } else {
        elements := elements[i :=
          Grouped(r.target, false, r.(target := r.target.(data := e.user.data)), e.targetReading, e.matchIndex)];
      }
    }

    method HandleMissingPostReads(caller: nat)
      requires caller < |elements| && IndicesValid(elements)
      modifies this`elements, this`needPreRead, this`inPostReads
      ensures inPostReads == old(inPostReads)
      ensures old(inPostReads) ==> elements == old(elements) && needPreRead == old(needPreRead)
      ensures !old(inPostReads) ==> State() == H.HandleMissingPostReads(old(State()), caller)
      decreases if inPostReads then 0 else 1, 0
    {
      if inPostReads {
        return;
      }
      inPostReads := true;
      ghost var es := elements;
      var j := 0;
      while j < |elements|
        invariant j <= |elements| == |es|
        invariant inPostReads
        invariant IndicesValid(elements)
        invariant elements == CompleteUpTo(es, caller, lastMatch, j)
      {
        if j != caller && elements[j].Grouped? && lastMatch > elements[j].user.version {
          PostRead(j);
        }
        assert elements == CompleteUpTo(es, caller, lastMatch, j + 1);
        j := j + 1;
      }
      needPreRead := true;
      inPostReads := false;
    }

    method IsConsistent() returns (b: bool)
      ensures b == Consistent(State())
    {
      ghost var g := State();
      var first := None;
      var j := 0;
      while j < |elements|
        invariant j <= |elements|
        invariant first.None? <==> forall k :: 0 <= k < j ==> elements[k].Plain?
        invariant first.Some? ==>
            exists k :: 0 <= k < j && elements[k].Grouped? && elements[k].user.version == first.value
        invariant first.Some? ==> forall k :: 0 <= k < j && elements[k].Grouped? ==>
            elements[k].user.version == first.value
      {
        if elements[j].Grouped? {
          if first.None? {
            first := Some(elements[j].user.version);
          } else if elements[j].user.version != first.value {
            return false;
          }
        }
        j := j + 1;
      }
      b := true;
    }
  }
}

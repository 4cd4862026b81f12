/**
 A stack of transfer elements as an object: buffers are swapped channel by channel, flags, exceptions and versions are
 updated step by step. The phases are tied to the functions of the same name in module DecoratorStack.
 */
module DecoratorStackObject {
  import opened Samples
  import opened S = DecoratorStack

  /** An entry of the read queue of an accessor with wait_for_new_data. */
  datatype Item<C> =
    | Value(buffer: seq<C>, version: nat, validity: Validity)
    | Discarded   // throws the DiscardValueException when popped
    | Error       // throws a runtime_error when popped

  /** Number of entries readLatest takes from the queue: all, or up to the first error. */
  function Taken<C>(q: seq<Item<C>>): (n: nat)
    ensures n <= |q|
    ensures forall k :: 0 <= k < n - 1 ==> !q[k].Error?
    ensures (n < |q| || exists k :: 0 <= k < |q| && q[k].Error?) ==> n > 0 && q[n - 1].Error?
  {
    if q == [] then 0
    else if q[0].Error? then 1
    else
      var n := Taken(q[1..]);
      assert forall k :: 0 <= k < |q| - 1 ==> q[1..][k] == q[k + 1];
      1 + n
  }

  /** The last value among the first n entries. */
  function LastValue<C>(q: seq<Item<C>>, n: nat): (r: Option<Incoming<C>>)
    requires n <= |q|
    ensures r.Some? ==> r.value.Data?
  {
    if n == 0 then None
    else if q[n - 1].Value? then Some(Data(q[n - 1].buffer, q[n - 1].version, q[n - 1].validity))
    else LastValue(q, n - 1)
  }

  lemma {:induction false} LastValueConcat<C>(p: seq<Item<C>>, q: seq<Item<C>>, n: nat)
    requires n <= |q|
    ensures LastValue(p + q, |p| + n) == if LastValue(q, n).Some? then LastValue(q, n) else LastValue(p, |p|)
  {
    if n == 0 {
      LastValuePrefix(p, q, |p|);
    } else {
      assert (p + q)[|p| + n - 1] == q[n - 1];
      LastValueConcat(p, q, n - 1);
    }
  }

  lemma {:induction false} LastValuePrefix<C>(p: seq<Item<C>>, q: seq<Item<C>>, n: nat)
    requires n <= |p|
    ensures LastValue(p + q, n) == LastValue(p, n)
  {
    if n > 0 { LastValuePrefix(p, q, n - 1); }
  }

  /** Popping p entries, all but the last one discarded, has yielded `incoming`. */
  ghost predicate PoppedAs<C>(q: seq<Item<C>>, p: nat, incoming: Incoming<C>) {
    && p <= |q|
    && (forall k :: 0 <= k < p - 1 ==> q[k].Discarded?)
    && match incoming
       case Nothing => p == |q| && (p > 0 ==> q[p - 1].Discarded?)
       case Failure => p > 0 && q[p - 1].Error?
       case Data(buffer, version, validity) => p > 0 && q[p - 1] == Value(buffer, version, validity)
  }

  lemma Tail<X>(s: seq<X>, k: nat)
    requires k < |s|
    ensures s[k..] == [s[k]] + s[k + 1..]
  {
  }

  lemma Prefix<X>(s: seq<X>, t: seq<X>, k: nat)
    requires k < |s| && k < |t| && s[..k + 1] == t[..k + 1]
    ensures s[..k] == t[..k] && s[k] == t[k]
  {
    assert s[..k] == s[..k + 1][..k];
    assert s[k] == s[..k + 1][k];
  }

  function SwappedAt<C>(ls: seq<Layer<C>>, k: nat): (r: seq<Layer<C>>)
    requires k + 1 < |ls|
    ensures |r| == |ls|
  {
    ls[k := ls[k].(buffer := ls[k + 1].buffer)][k + 1 := ls[k + 1].(buffer := ls[k].buffer)]
  }

  function HandedInwards<C>(ls: seq<Layer<C>>, k: nat): seq<Layer<C>>
    requires k + 1 < |ls|
  {
    ls[k := ls[k].(writing := true, buffer := ls[k + 1].buffer)]
      [k + 1 := ls[k + 1].(buffer := ls[k].buffer, validity := ls[k].validity)]
  }

  function TakenBack<C>(ls: seq<Layer<C>>, k: nat, version: nat, threw: bool): seq<Layer<C>>
    requires k + 1 < |ls|
  {
    ls[k := ls[k].(buffer := ls[k + 1].buffer, version := if threw then ls[k].version else version)]
      [k + 1 := ls[k + 1].(buffer := ls[k].buffer)]
  }

  function Delegated<C>(ls: seq<Layer<C>>, k: nat): seq<Layer<C>>
    requires k + 1 < |ls|
  {
    ls[k := ls[k].(failed := false)][k + 1 := ls[k + 1].(failed := ls[k + 1].failed || ls[k].failed)]
  }

  function TakenOver<C>(ls: seq<Layer<C>>, k: nat, hasNewData: bool): seq<Layer<C>>
    requires k + 1 < |ls|
  {
    var t := ls[k := ls[k].(validity := ls[k + 1].validity, version := ls[k + 1].version)];
    if hasNewData then SwappedAt(t, k) else t
  }

  /** The recursive call of preWrite, seen on the layers from k on. */
  lemma {:induction false} PreWriteAt<C>(ls: seq<Layer<C>>, after: seq<Layer<C>>, k: nat, version: nat, fault: Fault,
                                         threw: bool)
    requires k + 1 < |ls| == |after| && !ls[k].writing && ls[k].version <= version
    requires var before := HandedInwards(ls[k := ls[k].(failed := false)], k);
             && after[..k + 1] == before[..k + 1]
             && (after[k + 1..], threw) == PreWrite(before[k + 1..], version, fault)
    ensures after[..k] == ls[..k]
    ensures (after[k..], threw) == PreWrite(ls[k..], version, fault)
  {
    var l, a := ls[k], ls[k + 1..];
    var before := HandedInwards(ls[k := ls[k].(failed := false)], k);
    Tail(ls, k);
    Tail(after, k);
    Prefix(before, after, k);
    PreWriteDecorated(l, a, version, fault);
    assert before[k + 1..] == a[0 := a[0].(buffer := l.buffer, validity := l.validity)];
  }

  lemma {:induction false} PostWriteAt<C>(ls: seq<Layer<C>>, after: seq<Layer<C>>, k: nat, version: nat, fault: Fault,
                                          threw: bool)
    requires k + 1 < |ls| == |after| && ls[k].writing
    requires var before := Delegated(ls[k := ls[k].(writing := false)], k);
             && after[..k + 1] == before[..k + 1]
             && (after[k + 1..], threw) == PostWrite(before[k + 1..], version, fault)
    ensures TakenBack(after, k, version, threw)[..k] == ls[..k]
    ensures (TakenBack(after, k, version, threw)[k..], threw) == PostWrite(ls[k..], version, fault)
  {
    var l, a := ls[k], ls[k + 1..];
    var before := Delegated(ls[k := ls[k].(writing := false)], k);
    var rest := after[k + 1..];
    Tail(ls, k);
    Prefix(before, after, k);
    PostWriteDecorated(l, a, version, fault);
    assert before[k + 1..] == a[0 := a[0].(failed := a[0].failed || l.failed)];
    var c := TakenBack(after, k, version, threw);
    assert c[k + 1..] == rest[0 := rest[0].(buffer := l.buffer)];
    Tail(c, k);
  }

  lemma {:induction false} PostReadAt<C>(ls: seq<Layer<C>>, after: seq<Layer<C>>, k: nat, incoming: Incoming<C>,
                                         threw: bool)
    requires k + 1 < |ls| == |after| && ls[k].reading
    requires var before := Delegated(ls[k := ls[k].(reading := false)], k);
             && after[..k + 1] == before[..k + 1]
             && (after[k + 1..], threw) == PostRead(before[k + 1..], incoming)
    ensures var c := if threw then after else TakenOver(after, k, incoming.Data?);
            c[..k] == ls[..k] && (c[k..], threw) == PostRead(ls[k..], incoming)
  {
    var l, a := ls[k], ls[k + 1..];
    var before := Delegated(ls[k := ls[k].(reading := false)], k);
    var rest := after[k + 1..];
    Tail(ls, k);
    Prefix(before, after, k);
    PostReadDecorated(l, a, incoming);
    assert before[k + 1..] == a[0 := a[0].(failed := a[0].failed || l.failed)];
    var c := if threw then after else TakenOver(after, k, incoming.Data?);
    assert c[k + 1..] == if !threw && incoming.Data? then rest[0 := rest[0].(buffer := l.buffer)] else rest;
    Tail(c, k);
  }

  class AccessorStack<C> {
    const channels: nat
    var layers: seq<Layer<C>>
    var queue: seq<Item<C>>
    ghost var device: Option<(seq<C>, Validity)>   // what the last executed write transfer has been given

    ghost predicate Valid()
      reads this
    {
      && layers != []
      && (forall k :: 0 <= k < |layers| ==> |layers[k].buffer| == channels)
      && (forall k :: 0 <= k < |queue| ==> queue[k].Value? ==> |queue[k].buffer| == channels)
    }

    constructor (layers: seq<Layer<C>>, channels: nat)
      requires layers != [] && Quiet(layers) && forall k :: 0 <= k < |layers| ==> |layers[k].buffer| == channels
      ensures Valid() && this.layers == layers && queue == []
    {
      this.layers, this.channels := layers, channels;
      queue, device := [], None;
    }

    /** Swaps the buffers of layer k and its target channel by channel. */
    method SwapChannels(k: nat)
      requires Valid() && k + 1 < |layers|
      modifies this`layers
      ensures Valid()
      ensures layers == SwappedAt(old(layers), k)
    {
      var outer, inner := layers[k].buffer, layers[k + 1].buffer;
      ghost var outer0, inner0 := outer, inner;
      var i := 0;
      while i < channels
        invariant 0 <= i <= channels == |outer| == |inner| == |outer0| == |inner0|
        invariant forall j :: 0 <= j < i ==> outer[j] == inner0[j] && inner[j] == outer0[j]
        invariant forall j :: i <= j < channels ==> outer[j] == outer0[j] && inner[j] == inner0[j]
      {
        outer, inner := outer[i := inner[i]], inner[i := outer[i]];
        i := i + 1;
      }
      assert outer == inner0 && inner == outer0;
      layers := layers[k := layers[k].(buffer := outer)][k + 1 := layers[k + 1].(buffer := inner)];
    }

    /** doPreWrite of a decorator up to the call of its target's preWrite. */
    method HandOutwardData(k: nat)
      requires Valid() && k + 1 < |layers|
      modifies this`layers
      ensures Valid()
      ensures layers == HandedInwards(old(layers), k)
    {
      layers := layers[k := layers[k].(writing := true)];
      SwapChannels(k);
      layers := layers[k + 1 := layers[k + 1].(validity := layers[k].validity)];
    }

    method PreWrite(k: nat, version: nat, fault: Fault) returns (threw: bool)
      requires Valid() && k < |layers|
      modifies this`layers
      ensures Valid()
      ensures |layers| == |old(layers)| && layers[..k] == old(layers)[..k]
      ensures (layers[k..], threw) == S.PreWrite(old(layers)[k..], version, fault)
      decreases |layers| - k
    {
      if layers[k].writing {
        return false;
      }
      layers := layers[k := layers[k].(failed := false)];
      if version < layers[k].version {
        return true;
      }
      if k + 1 == |layers| {
        layers := layers[k := layers[k].(writing := true)];
        assert layers[k..] == [layers[k]] && old(layers)[k..] == [old(layers)[k]];
        return fault == InPreWrite;
      }
      HandOutwardData(k);
      threw := PreWrite(k + 1, version, fault);
      PreWriteAt(old(layers), layers, k, version, fault, threw);
    }

    /** doPostWrite of a decorator after its target's postWrite, executed in any case. */
    method TakeBackData(k: nat, version: nat, threw: bool)
      requires Valid() && k + 1 < |layers|
      modifies this`layers
      ensures Valid()
      ensures layers == TakenBack(old(layers), k, version, threw)
    {
      SwapChannels(k);
      if !threw {
        layers := layers[k := layers[k].(version := version)];
      }
    }

    /** setActiveException of a decorator moves its exception to the target. */
    method HandOverException(k: nat)
      requires Valid() && k + 1 < |layers|
      modifies this`layers
      ensures Valid()
      ensures layers == Delegated(old(layers), k)
    {
      if layers[k].failed {
        layers := layers[k + 1 := layers[k + 1].(failed := true)][k := layers[k].(failed := false)];
      }
    }

    method PostWrite(k: nat, version: nat, fault: Fault) returns (threw: bool)
      requires Valid() && k < |layers|
      modifies this`layers
      ensures Valid()
      ensures |layers| == |old(layers)| && layers[..k] == old(layers)[..k]
      ensures (layers[k..], threw) == S.PostWrite(old(layers)[k..], version, fault)
      decreases |layers| - k
    {
      if layers[k].writing && k + 1 < |layers| {
        layers := layers[k := layers[k].(writing := false)];
        HandOverException(k);
        threw := PostWrite(k + 1, version, fault);
        ghost var after := layers;
        TakeBackData(k, version, threw);
        PostWriteAt(old(layers), after, k, version, fault, threw);
        return;
      }
      threw := PostWriteHere(k, version, fault);
    }

    /** postWrite() which is not delegated: of the backend's element, or if no transaction is open. */
    method PostWriteHere(k: nat, version: nat, fault: Fault) returns (threw: bool)
      requires Valid() && k < |layers| && (layers[k].writing ==> k + 1 == |layers|)
      modifies this`layers
      ensures Valid()
      ensures |layers| == |old(layers)| && layers[..k] == old(layers)[..k]
      ensures (layers[k..], threw) == S.PostWrite(old(layers)[k..], version, fault)
    {
      var open := layers[k].writing;
      Tail(layers, k);
      layers := layers[k := layers[k].(writing := false)];
      Tail(layers, k);
      assert layers[k + 1..] == old(layers)[k + 1..];
      if layers[k].failed {
        return true;
      }
      if open && fault == InPostWrite {
        assert layers[k..] == [layers[k]] && old(layers)[k..] == [old(layers)[k]];
        return true;
      }
      layers := layers[k := layers[k].(version := version)];
      Tail(layers, k);
      assert layers[k + 1..] == old(layers)[k + 1..];
      threw := false;
    }

    /** write(); the fault says where the backend throws. */
    method Write(version: nat, fault: Fault) returns (threw: bool)
      requires Valid()
      modifies this`layers, this`device
      ensures Valid()
      ensures var r := S.Write(old(layers), version, fault);
              && layers == r.layers && threw == r.threw
              && device == (if r.transferred.Some? then r.transferred else old(device))
    {
      layers := layers[0 := layers[0].(writing := false)];
      assert layers[0..] == layers;
      threw := PreWrite(0, version, fault);
      assert layers[0..] == layers;
      if threw {
        layers := layers[0 := layers[0].(failed := true)];
      }
      if !threw {
        device := Some((layers[|layers| - 1].buffer, layers[|layers| - 1].validity));
        if fault == InTransfer {
          layers := layers[0 := layers[0].(failed := true)];
        }
      }
      assert layers[0..] ==
          Marked(S.PreWrite(old(layers)[0 := old(layers)[0].(writing := false)], version, fault).0,
            threw || fault == InTransfer);
      threw := PostWrite(0, version, fault);
    }

    method PreRead(k: nat, refuses: bool) returns (threw: bool)
      requires Valid() && k < |layers|
      modifies this`layers
      ensures Valid()
      ensures |layers| == |old(layers)| && layers[..k] == old(layers)[..k]
      ensures layers[k..] == S.PreRead(old(layers)[k..], refuses).0
      ensures threw == S.PreRead(old(layers)[k..], refuses).1
      decreases |layers| - k
    {
      if layers[k].reading {
        return false;
      }
      layers := layers[k := layers[k].(reading := true, failed := false)];
      if k + 1 == |layers| {
        return refuses;
      }
      assert layers[k + 1..] == old(layers)[k..][1..];
      threw := PreRead(k + 1, refuses);
    }

    /** doPostRead of a decorator after its target's postRead. */
    method TakeOverData(k: nat, hasNewData: bool)
      requires Valid() && k + 1 < |layers|
      modifies this`layers
      ensures Valid()
      ensures layers == TakenOver(old(layers), k, hasNewData)
    {
      layers := layers[k := layers[k].(validity := layers[k + 1].validity, version := layers[k + 1].version)];
      if hasNewData {
        SwapChannels(k);
      }
    }

    method PostRead(k: nat, incoming: Incoming<C>) returns (threw: bool)
      requires Valid() && k < |layers| && (incoming.Data? ==> |incoming.buffer| == channels)
      modifies this`layers
      ensures Valid()
      ensures |layers| == |old(layers)| && layers[..k] == old(layers)[..k]
      ensures (layers[k..], threw) == S.PostRead(old(layers)[k..], incoming)
      decreases |layers| - k
    {
      if !layers[k].reading {
        return layers[k].failed;
      }
      layers := layers[k := layers[k].(reading := false)];
      if k + 1 == |layers| {
        if incoming.Data? {
          layers := layers[k :=
            layers[k].(buffer := incoming.buffer, version := incoming.version, validity := incoming.validity)];
        }
        assert layers[k..] == [layers[k]] && old(layers)[k..] == [old(layers)[k]];
        return layers[k].failed;
      }
      HandOverException(k);
      threw := PostRead(k + 1, incoming);
      ghost var after := layers;
      if !threw {
        TakeOverData(k, incoming.Data?);
      }
      PostReadAt(old(layers), after, k, incoming, threw);
    }

    /** readTransferNonBlocking on the read queue: discarded entries are skipped. */
    method Pop() returns (incoming: Incoming<C>, ghost p: nat)
      requires Valid()
      modifies this`queue
      ensures Valid()
      ensures PoppedAs(old(queue), p, incoming) && queue == old(queue)[p..]
    {
      p := 0;
      while queue != []
        invariant Valid() && 0 <= p <= |old(queue)| && queue == old(queue)[p..]
        invariant forall k :: 0 <= k < p ==> old(queue)[k].Discarded?
        decreases |queue|
      {
        var item := queue[0];
        queue := queue[1..];
        p := p + 1;
        if item.Error? {
          return Failure, p;
        }
        if item.Value? {
          return Data(item.buffer, item.version, item.validity), p;
        }
      }
      incoming := Nothing;
    }

    /** readNonBlocking() of an accessor with wait_for_new_data. */
    method ReadNonBlocking() returns (updated: bool, threw: bool, ghost incoming: Incoming<C>, ghost p: nat)
      requires Valid()
      modifies this`layers, this`queue
      ensures Valid()
      ensures layers == Read(old(layers), false, incoming).layers && threw == Read(old(layers), false, incoming).threw
      ensures updated == incoming.Data? && |layers| == |old(layers)|
      ensures PoppedAs(old(queue), p, incoming) && queue == old(queue)[p..]
    {
      layers := layers[0 := layers[0].(reading := false)];
      assert layers[0..] == layers;
      var refused := PreRead(0, false);
      assert layers[0..] == layers;
      PreReadNeverRefuses(old(layers)[0 := old(layers)[0].(reading := false)]);
      var popped;
      popped, p := Pop();
      incoming := popped;
      if popped.Failure? {
        layers := layers[0 := layers[0].(failed := true)];
      }
      assert layers[0..] ==
          Marked(S.PreRead(old(layers)[0 := old(layers)[0].(reading := false)], false).0, popped.Failure?);
      threw := PostRead(0, popped);
      updated := popped.Data?;
    }

    /** readLatest() of an accessor with wait_for_new_data: reads until there is no more new data. Unless an exception
        comes out of the queue, the queue is empty afterwards and the application has the last value that was in it. */
    method ReadLatest() returns (updated: bool, threw: bool)
      requires Valid() && Quiet(layers)
      modifies this`layers, this`queue
      ensures Valid()
      ensures ReadsLatest(old(layers), old(queue), layers, queue, updated, threw)
    {
      updated, threw := false, false;
      ghost var taken: seq<Item<C>> := [];
      ghost var q0, ls0 := queue, layers;
      while true
        invariant Valid() && q0 == taken + queue
        invariant Following(ls0, layers, taken, updated)
        decreases |queue|
      {
        ghost var q, ls := queue, layers;
        var more, exception;
        ghost var incoming, p;
        more, exception, incoming, p := ReadNonBlocking();
        FollowingStep(ls0, ls, taken, updated, q, p, incoming);
        assert q0 == (taken + q[..p]) + queue;
        taken := taken + q[..p];
        if exception {
          threw := true;
          StoppedByError(ls0, layers, taken, queue, updated);
          return;
        }
        if !more {
          StoppedAtEnd(ls0, layers, taken, updated);
          return;
        }
        updated := true;
      }
    }
  }

  /** All data of the queue up to its first error has been taken, the last value is shown. Without any value the buffers
      are as before. */
  ghost predicate ReadsLatest<C>(ls0: seq<Layer<C>>, q0: seq<Item<C>>, ls: seq<Layer<C>>, q: seq<Item<C>>,
                                 updated: bool,
                                 threw: bool)
  {
    && q == q0[Taken(q0)..]
    && Followed(ls0, ls, q0[..Taken(q0)], threw)
    && (threw <==> exists k :: 0 <= k < |q0| && q0[k].Error?)
    && (!threw ==> updated == LastValue(q0, |q0|).Some?)
  }

  lemma StoppedByError<C>(ls0: seq<Layer<C>>, ls: seq<Layer<C>>, taken: seq<Item<C>>, q: seq<Item<C>>, updated: bool)
    requires Followed(ls0, ls, taken, true) && EndsWithError(taken)
    ensures ReadsLatest(ls0, taken + q, ls, q, updated, true)
  {
    var q0 := taken + q;
    TakenAtError(q0, |taken|);
    assert q0[..|taken|] == taken && q0[|taken|..] == q;
    assert q0[|taken| - 1].Error?;
  }

  lemma {:induction false} StoppedAtEnd<C>(ls0: seq<Layer<C>>, ls: seq<Layer<C>>, taken: seq<Item<C>>, updated: bool)
    requires Followed(ls0, ls, taken, false) && NoErrors(taken) && updated == LastValue(taken, |taken|).Some?
    ensures ReadsLatest(ls0, taken + [], ls, [], updated, false)
  {
    assert taken + [] == taken;
    TakenAll(taken);
    assert taken[..|taken|] == taken;
  }

  /** The entries taken from the queue have brought the stack from ls0 to ls. */
  ghost predicate Followed<C>(ls0: seq<Layer<C>>, ls: seq<Layer<C>>, taken: seq<Item<C>>, threw: bool) {
    && Quiet(ls) && |ls| == |ls0| > 0
    && match LastValue(taken, |taken|)
       case Some(last) => Shows(ls, last)
       case None => if threw then Untouched(ls0, ls) else Levelled(ls0, ls)
  }

  ghost predicate NoErrors<C>(taken: seq<Item<C>>) {
    forall k :: 0 <= k < |taken| ==> !taken[k].Error?
  }

  /** The loop of readLatest goes on: every read so far has brought a value. */
  ghost predicate Following<C>(ls0: seq<Layer<C>>, ls: seq<Layer<C>>, taken: seq<Item<C>>, updated: bool) {
    && Quiet(ls) && |ls| == |ls0| > 0 && NoErrors(taken)
    && match LastValue(taken, |taken|)
       case Some(last) => updated && Shows(ls, last)
       case None => !updated && ls == ls0
  }

  ghost predicate EndsWithError<C>(q: seq<Item<C>>) {
    && q != [] && q[|q| - 1].Error?
    && forall k :: 0 <= k < |q| - 1 ==> !q[k].Error?
  }

  /** A read without new data keeps what is shown. */
  lemma KeepsShowing<C>(ls: seq<Layer<C>>, c: seq<Layer<C>>, last: Incoming<C>)
    requires Shows(ls, last) && (Levelled(ls, c) || Untouched(ls, c))
    ensures Shows(c, last)
  {
    if Levelled(ls, c) { LevelledUniform(ls, c); }
  }

  lemma FollowingStep<C>(ls0: seq<Layer<C>>, ls: seq<Layer<C>>, taken: seq<Item<C>>, updated: bool, q: seq<Item<C>>,
                         p: nat,
                         incoming: Incoming<C>)
    requires Following(ls0, ls, taken, updated) && PoppedAs(q, p, incoming)
    ensures var r, t := Read(ls, false, incoming), taken + q[..p];
            && (incoming.Failure? <==> r.threw)
            && (incoming.Failure? ==> EndsWithError(t) && Followed(ls0, r.layers, t, true))
            && (incoming.Data? ==> Following(ls0, r.layers, t, true))
            && (incoming.Nothing? ==>
                  && p == |q| && Followed(ls0, r.layers, t, false)
                  && NoErrors(t) && updated == LastValue(t, |t|).Some?)
  {
    ReadIsAllOrNothing(ls, false, incoming);
    OnlyLast(q, p);
    LastValueConcat(taken, q[..p], p);
    assert LastValue(taken + q[..p], |taken + q[..p]|) ==
           if incoming.Data? then Some(incoming) else LastValue(taken, |taken|);
    if updated && !incoming.Data? {
      KeepsShowing(ls, Read(ls, false, incoming).layers, LastValue(taken, |taken|).value);
    }
  }

  lemma {:induction false} PreReadNeverRefuses<C>(ls: seq<Layer<C>>)
    requires ls != []
    ensures !S.PreRead(ls, false).1
    decreases |ls|
  {
    if |ls| > 1 { PreReadNeverRefuses(ls[1..]); }
  }

  /** All layers show the data of a read. */
  ghost predicate Shows<C>(ls: seq<Layer<C>>, data: Incoming<C>) {
    && data.Data? && ls != [] && ls[0].buffer == data.buffer
    && forall k :: 0 <= k < |ls| ==> ls[k].version == data.version && ls[k].validity == data.validity
  }

  /** In a run of discarded entries only the last one can hold a value. */
  lemma {:induction false} OnlyLast<C>(q: seq<Item<C>>, p: nat)
    requires p <= |q| && forall k :: 0 <= k < p - 1 ==> q[k].Discarded?
    ensures LastValue(q[..p], p) ==
            if p > 0 && q[p - 1].Value? then Some(Data(q[p - 1].buffer, q[p - 1].version, q[p - 1].validity)) else None
  {
    if p > 0 {
      NoValue(q[..p], p - 1);
    }
  }

  lemma {:induction false} NoValue<C>(q: seq<Item<C>>, n: nat)
    requires n <= |q| && forall k :: 0 <= k < n ==> q[k].Discarded?
    ensures LastValue(q, n).None?
  {
    if n > 0 { NoValue(q, n - 1); }
  }

  lemma {:induction false} TakenAtError<C>(q: seq<Item<C>>, n: nat)
    requires 0 < n <= |q| && q[n - 1].Error? && forall k :: 0 <= k < n - 1 ==> !q[k].Error?
    ensures Taken(q) == n
  {
  }

  lemma {:induction false} TakenAll<C>(q: seq<Item<C>>)
    requires forall k :: 0 <= k < |q| ==> !q[k].Error?
    ensures Taken(q) == |q|
  {
    if q != [] { TakenAll(q[1..]); }
  }
}

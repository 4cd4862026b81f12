/**
 Transfer elements stacked as decorators: element 0 is what the application uses, every element but the last is an
 NDRegisterAccessorDecorator whose target is the next one, and the last one is implemented by a backend. C is the type
 of one channel of a buffer.
 */
module DecoratorStack {
  import opened Samples

  datatype Layer<C> = Layer(
    buffer: seq<C>,       // buffer_2D
    version: nat,
    validity: Validity,
    reading: bool,        // readTransactionInProgress
    writing: bool,        // writeTransactionInProgress
    failed: bool)         // _activeException is set

  /** Where the backend throws during a write. */
  datatype Fault = NoFault | InPreWrite | InTransfer | InPostWrite

  // ----- writing

  /** TransferElement::preWrite of the outermost element of ls; the result true stands for an exception. */
  function PreWrite<C>(ls: seq<Layer<C>>, version: nat, fault: Fault): (r: (seq<Layer<C>>, bool))
    requires ls != []
    ensures |r.0| == |ls|
    decreases |ls|
  {
    var l := ls[0].(failed := false);
    if ls[0].writing then (ls, false)
    else if version < l.version then (ls[0 := l], true)
    else if |ls| == 1 then ([l.(writing := true)], fault == InPreWrite)
    else
      // doPreWrite of a decorator: the buffers are swapped and the target is asked to prepare
      var target := ls[1];
      var (rest, threw) := PreWrite(ls[1..][0 := target.(buffer := l.buffer, validity := l.validity)], version, fault);
      ([l.(writing := true, buffer := target.buffer)] + rest, threw)
  }

  /** TransferElement::postWrite of the outermost element of ls; the result true stands for an exception. */
  function PostWrite<C>(ls: seq<Layer<C>>, version: nat, fault: Fault): (r: (seq<Layer<C>>, bool))
    requires ls != []
    ensures |r.0| == |ls|
    decreases |ls|
  {
    var l := ls[0].(writing := false);
    if !ls[0].writing || |ls| == 1 then
      if ls[0].writing && fault == InPostWrite && !l.failed then ([l], true)
      else if l.failed then ([l] + ls[1..], true)
      else ([l.(version := version)] + ls[1..], false)
    else
      // doPostWrite of a decorator: the exception is handed to the target, the buffers are swapped back in any case
      var target := ls[1].(failed := ls[1].failed || l.failed);
      var (rest, threw) := PostWrite(ls[1..][0 := target], version, fault);
      var l' := l.(failed := false, buffer := rest[0].buffer);
      var rest' := rest[0 := rest[0].(buffer := l.buffer)];
      ([if threw then l' else l'.(version := version)] + rest', threw)
  }

  /** What happened to a write: the stack afterwards, whether an exception left write(), and what the backend has been
      given if the transfer was executed. */
  datatype WriteResult<C> = WriteResult(layers: seq<Layer<C>>, threw: bool, transferred: Option<(seq<C>, Validity)>)

  /** TransferElement::write of the outermost element. */
  function Write<C>(ls: seq<Layer<C>>, version: nat, fault: Fault): WriteResult<C>
    requires ls != []
  {
    var (a, threw) := PreWrite(ls[0 := ls[0].(writing := false)], version, fault);
    var innermost := a[|a| - 1];
    var (c, threw') := PostWrite(Marked(a, threw || fault == InTransfer), version, fault);
    WriteResult(c, threw', if threw then None else Some((innermost.buffer, innermost.validity)))
  }

  predicate Quiet<C>(ls: seq<Layer<C>>) {
    forall k :: 0 <= k < |ls| ==> !ls[k].writing && !ls[k].reading
  }

  /** The version number is older than the last one of some layer. */
  predicate TooOld<C>(ls: seq<Layer<C>>, version: nat) {
    exists k :: 0 <= k < |ls| && version < ls[k].version
  }

  /** After preparation: unless an exception was thrown, the backend element holds the outermost user data. */
  lemma {:induction false} PreWriteDelivers<C>(ls: seq<Layer<C>>, version: nat, fault: Fault)
    requires ls != [] && Quiet(ls)
    ensures var (a, threw) := PreWrite(ls, version, fault);
            && (threw <==> TooOld(ls, version) || fault == InPreWrite)
            && (!threw ==> a[|a| - 1].buffer == ls[0].buffer && a[|a| - 1].validity == ls[0].validity && !a[0].failed)
            && (threw ==> !a[0].failed)
    decreases |ls|
  {
    if version >= ls[0].version && |ls| > 1 {
      var rest := ls[1..][0 := ls[1].(buffer := ls[0].buffer, validity := ls[0].validity)];
      assert forall k :: 0 <= k < |rest| ==>
          rest[k].version == ls[k + 1].version && rest[k].writing == ls[k + 1].writing;
      PreWriteDelivers(rest, version, fault);
      assert TooOld(rest, version) <==> TooOld(ls, version) by {
        if k :| 0 <= k < |ls| && version < ls[k].version { assert version < rest[k - 1].version; }
        if k :| 0 <= k < |rest| && version < rest[k].version { assert version < ls[k + 1].version; }
      }
    }
  }

  /** Layers which differ at most in meta data. */
  ghost predicate Restored<C>(ls: seq<Layer<C>>, c: seq<Layer<C>>, version: Option<nat>) {
    && |c| == |ls|
    && forall k :: 0 <= k < |ls| ==>
         && c[k].buffer == ls[k].buffer
         && !c[k].writing && !c[k].reading
         && c[k].version == if version.Some? then version.value else ls[k].version
  }

  /** preWrite has passed the validity on to layer k: all layers outside of it have accepted the version. */
  ghost predicate Reached<C>(ls: seq<Layer<C>>, version: nat, k: nat)
    requires k <= |ls|
  {
    forall j :: 0 <= j < k ==> ls[j].version <= version
  }

  /** The layers preWrite has reached show the validity of the outermost one, the others keep their own. */
  ghost predicate ValidityPassed<C>(ls: seq<Layer<C>>, c: seq<Layer<C>>, version: nat)
    requires |c| == |ls|
  {
    forall k :: 0 <= k < |ls| ==> c[k].validity == if Reached(ls, version, k) then ls[0].validity else ls[k].validity
  }

  /** Of the layers preWrite has reached, only the last one keeps an exception, unless postWrite of the backend has
      thrown it. */
  ghost predicate ExceptionMoved<C>(ls: seq<Layer<C>>, c: seq<Layer<C>>, version: nat, fault: Fault)
    requires |c| == |ls|
  {
    forall k :: 0 <= k < |ls| && Reached(ls, version, k) ==>
      (c[k].failed <==> version < ls[k].version || (k == |ls| - 1 && (fault.InPreWrite? || fault.InTransfer?)))
  }

  ghost predicate NoneFailed<C>(ls: seq<Layer<C>>) {
    forall k :: 0 <= k < |ls| ==> !ls[k].failed
  }

  /** preWrite of a decorator which accepts the version. */
  lemma {:induction false} PreWriteDecorated<C>(l: Layer<C>, a: seq<Layer<C>>, version: nat, fault: Fault)
    requires !l.writing && l.version <= version && a != []
    ensures var (rest, threw) := PreWrite(a[0 := a[0].(buffer := l.buffer, validity := l.validity)], version, fault);
            PreWrite([l] + a, version, fault) ==
              ([l.(failed := false, writing := true, buffer := a[0].buffer)] + rest, threw)
  {
    assert ([l] + a)[1..] == a;
  }

  /** postWrite of a decorator whose transaction is open. */
  lemma {:induction false} PostWriteDecorated<C>(l: Layer<C>, a: seq<Layer<C>>, version: nat, fault: Fault)
    requires l.writing && a != []
    ensures var (rest, threw) := PostWrite(a[0 := a[0].(failed := a[0].failed || l.failed)], version, fault);
            PostWrite([l] + a, version, fault) ==
            ([l.(writing := false, failed := false, buffer := rest[0].buffer,
                 version := if threw then l.version else version)]
               + rest[0 := rest[0].(buffer := l.buffer)], threw)
  {
    assert ([l] + a)[1..] == a;
  }

  /** The exception state in which postWrite is called. */
  function Marked<C>(a: seq<Layer<C>>, failed: bool): seq<Layer<C>>
    requires a != []
  {
    a[0 := a[0].(failed := a[0].failed || failed)]
  }

  /** Swapping the restored buffers back restores one more layer. */
  lemma RestoredOutwards<C>(ls: seq<Layer<C>>, rest: seq<Layer<C>>, c: seq<Layer<C>>, l: Layer<C>, version: Option<nat>)
    requires |ls| > 1 && |rest| == |ls| - 1 && rest == ls[1..][0 := rest[0]] && rest[0].buffer == ls[0].buffer
        && rest[0].version == ls[1].version
    requires Restored(rest, c, version)
    requires l.buffer == c[0].buffer && !l.writing && !l.reading
    requires l.version == if version.Some? then version.value else ls[0].version
    ensures Restored(ls, [l] + c[0 := c[0].(buffer := ls[1].buffer)], version)
  {
    var r := [l] + c[0 := c[0].(buffer := ls[1].buffer)];
    forall k | 1 <= k < |ls|
      ensures r[k].buffer == ls[k].buffer && !r[k].writing && !r[k].reading
      ensures r[k].version == if version.Some? then version.value else ls[k].version
    {
      assert c[k - 1].version == if version.Some? then version.value else rest[k - 1].version;
      assert k > 1 ==> rest[k - 1] == ls[k] && c[k - 1].buffer == rest[k - 1].buffer;
    }
  }

  lemma ReachedOutwards<C>(ls: seq<Layer<C>>, rest: seq<Layer<C>>, version: nat, k: nat)
    requires |rest| == |ls| - 1 && 1 <= k <= |ls| && ls[0].version <= version
    requires forall j :: 0 <= j < |rest| ==> rest[j].version == ls[j + 1].version
    ensures Reached(ls, version, k) <==> Reached(rest, version, k - 1)
  {
    if Reached(rest, version, k - 1) {
      forall j | 1 <= j < k
        ensures ls[j].version <= version
      {
        assert rest[j - 1].version <= version;
      }
    }
  }

  lemma ValidityOutwards<C>(ls: seq<Layer<C>>, rest: seq<Layer<C>>, c: seq<Layer<C>>, l: Layer<C>, version: nat)
    requires |ls| > 1 && |c| == |rest| == |ls| - 1 && rest == ls[1..][0 := rest[0]]
    requires rest[0].validity == ls[0].validity == l.validity && rest[0].version == ls[1].version
    requires ls[0].version <= version && ValidityPassed(rest, c, version)
    ensures ValidityPassed(ls, [l] + c[0 := c[0].(buffer := ls[1].buffer)], version)
  {
    hide Reached;
    var r := [l] + c[0 := c[0].(buffer := ls[1].buffer)];
    forall k | 1 <= k < |ls|
      ensures r[k].validity == if Reached(ls, version, k) then ls[0].validity else ls[k].validity
    {
      assert rest[k - 1].validity == if k == 1 then ls[0].validity else ls[k].validity;
      assert r[k].validity == c[k - 1].validity;
      ReachedOutwards(ls, rest, version, k);
      if k == 1 { NothingBefore(ls, version); }
    }
  }

  lemma ExceptionOutwards<C>(ls: seq<Layer<C>>, rest: seq<Layer<C>>, c: seq<Layer<C>>, l: Layer<C>, version: nat,
                             fault: Fault)
    requires |ls| > 1 && |c| == |rest| == |ls| - 1 && rest == ls[1..][0 := rest[0]] && rest[0].version == ls[1].version
    requires ls[0].version <= version && !l.failed && ExceptionMoved(rest, c, version, fault)
    ensures ExceptionMoved(ls, [l] + c[0 := c[0].(buffer := ls[1].buffer)], version, fault)
  {
    hide Reached;
    var r := [l] + c[0 := c[0].(buffer := ls[1].buffer)];
    forall k | 1 <= k < |ls| && Reached(ls, version, k)
      ensures r[k].failed <==> version < ls[k].version || (k == |ls| - 1 && (fault.InPreWrite? || fault.InTransfer?))
    {
      ReachedOutwards(ls, rest, version, k);
      assert r[k].failed == c[k - 1].failed && rest[k - 1].version == ls[k].version;
    }
  }

  lemma NothingBefore<C>(ls: seq<Layer<C>>, version: nat)
    requires ls != []
    ensures Reached(ls, version, 0) && (ls[0].version <= version ==> Reached(ls, version, 1))
  {
  }

  /** postWrite has undone preWrite. */
  ghost predicate Undone<C>(ls: seq<Layer<C>>, version: nat, fault: Fault)
    requires ls != []
  {
    var (a, threw) := PreWrite(ls, version, fault);
    var (c, threw') := PostWrite(Marked(a, threw || fault == InTransfer), version, fault);
    && threw' == (threw || fault != NoFault)
    && Restored(ls, c, if threw' then None else Some(version))
    && ValidityPassed(ls, c, version)
    && ExceptionMoved(ls, c, version, fault)
    && (!threw' ==> NoneFailed(c))
  }

  /** The element does not reach a target: its version check fails, or it is the backend's. */
  lemma UndoneHere<C>(ls: seq<Layer<C>>, version: nat, fault: Fault)
    requires ls != [] && Quiet(ls) && (version < ls[0].version || |ls| == 1)
    ensures Undone(ls, version, fault)
  {
  }

  lemma {:induction false} DecoratedPreWrite<C>(ls: seq<Layer<C>>, rest: seq<Layer<C>>, version: nat, fault: Fault)
    requires |ls| > 1 && !ls[0].writing && version >= ls[0].version
    requires rest == ls[1..][0 := ls[1].(buffer := ls[0].buffer, validity := ls[0].validity)]
    ensures var (a, threw) := PreWrite(rest, version, fault);
            PreWrite(ls, version, fault) ==
              ([ls[0].(failed := false, writing := true, buffer := ls[1].buffer)] + a, threw)
  {
    assert ls == [ls[0]] + ls[1..];
    PreWriteDecorated(ls[0], ls[1..], version, fault);
  }

  /** postWrite of a decorator after preWrite has been called: the exception is passed on to the target. */
  lemma {:induction false} DecoratedPostWrite<C>(l: Layer<C>, a: seq<Layer<C>>, failed: bool, version: nat,
                                                 fault: Fault)
    requires l.writing && !l.failed && a != [] && !a[0].failed
    ensures var (c, threw) := PostWrite(Marked(a, failed), version, fault);
            PostWrite(Marked([l] + a, failed), version, fault) ==
            ([l.(writing := false, buffer := c[0].buffer, version := if threw then l.version else version)]
               + c[0 := c[0].(buffer := l.buffer)], threw)
  {
    assert Marked([l] + a, failed) == [l.(failed := failed)] + a;
    PostWriteDecorated(l.(failed := failed), a, version, fault);
  }

  lemma {:induction false} UndoneOutwards<C>(ls: seq<Layer<C>>, rest: seq<Layer<C>>, version: nat, fault: Fault)
    requires |ls| > 1 && Quiet(ls) && version >= ls[0].version
    requires rest == ls[1..][0 := ls[1].(buffer := ls[0].buffer, validity := ls[0].validity)]
    requires Undone(rest, version, fault) && !PreWrite(rest, version, fault).0[0].failed
    ensures Undone(ls, version, fault)
  {
    var (a, threw) := PreWrite(rest, version, fault);
    var (c, threw') := PostWrite(Marked(a, threw || fault == InTransfer), version, fault);
    DecoratedPreWrite(ls, rest, version, fault);
    DecoratedPostWrite(ls[0].(failed := false, writing := true, buffer := ls[1].buffer), a,
      threw || fault == InTransfer, version, fault);
    RestoredOutwards(ls, rest, c,
      ls[0].(writing := false, failed := false, buffer := c[0].buffer,
             version := if threw' then ls[0].version else version),
      if threw' then None else Some(version));
    ValidityOutwards(ls, rest, c,
      ls[0].(writing := false, failed := false, buffer := c[0].buffer,
             version := if threw' then ls[0].version else version), version);
    ExceptionOutwards(ls, rest, c,
      ls[0].(writing := false, failed := false, buffer := c[0].buffer,
             version := if threw' then ls[0].version else version), version, fault);
  }

  /** postWrite undoes what preWrite has done, however far that came. */
  lemma {:induction false} PostWriteUndoes<C>(ls: seq<Layer<C>>, version: nat, fault: Fault)
    requires ls != [] && Quiet(ls)
    ensures Undone(ls, version, fault)
    decreases |ls|
  {
    if version < ls[0].version || |ls| == 1 {
      UndoneHere(ls, version, fault);
    } else {
      var rest := ls[1..][0 := ls[1].(buffer := ls[0].buffer, validity := ls[0].validity)];
      assert forall k :: 0 <= k < |rest| ==> !rest[k].writing && !rest[k].reading;
      PreWriteDelivers(rest, version, fault);
      PostWriteUndoes(rest, version, fault);
      UndoneOutwards(ls, rest, version, fault);
    }
  }

  /** A write through a stack of any depth is all or nothing, whichever layer finds the version too old and wherever the
      backend fails: all buffers are what they were before, no transaction is left open, the version number advances on
      all layers or on none, and a transfer that was executed saw the outermost user data. The validity is passed on
      inwards up to the first layer which finds the version too old. */
  lemma WriteIsAllOrNothing<C>(ls: seq<Layer<C>>, version: nat, fault: Fault)
    requires ls != [] && Quiet(ls)
    ensures var r := Write(ls, version, fault);
            && (r.threw <==> TooOld(ls, version) || fault != NoFault)
            && Restored(ls, r.layers, if r.threw then None else Some(version))
            && ValidityPassed(ls, r.layers, version)
            && r.layers[0].validity == ls[0].validity
            && (!TooOld(ls, version) ==> forall k :: 0 <= k < |ls| ==> r.layers[k].validity == ls[0].validity)
            && ExceptionMoved(ls, r.layers, version, fault)
            && (!r.threw ==> NoneFailed(r.layers))
            && (r.transferred.Some? <==> !TooOld(ls, version) && fault != InPreWrite)
            && (r.transferred.Some? ==> r.transferred.value == (ls[0].buffer, ls[0].validity))
  {
    assert ls[0 := ls[0].(writing := false)] == ls;
    PreWriteDelivers(ls, version, fault);
    PostWriteUndoes(ls, version, fault);
  }

  // ----- reading

  /** What a read transfer yields. */
  datatype Incoming<C> =
    | Data(buffer: seq<C>, version: nat, validity: Validity)
    | Nothing    // non-blocking read without new data
    | Failure    // runtime_error

  /** TransferElement::preRead; the backend may refuse (closed device), the result true stands for the exception. */
  function PreRead<C>(ls: seq<Layer<C>>, refuses: bool): (r: (seq<Layer<C>>, bool))
    requires ls != []
    ensures |r.0| == |ls|
    decreases |ls|
  {
    var l := ls[0].(reading := true, failed := false);
    if ls[0].reading then (ls, false)
    else if |ls| == 1 then ([l], refuses)
    else
      var (rest, threw) := PreRead(ls[1..], refuses);
      ([l] + rest, threw)
  }

  /** TransferElement::postRead; data arrives in the backend element and is swapped outwards. */
  function PostRead<C>(ls: seq<Layer<C>>, incoming: Incoming<C>): (r: (seq<Layer<C>>, bool))
    requires ls != []
    ensures |r.0| == |ls|
    decreases |ls|
  {
    var l := ls[0].(reading := false);
    if !ls[0].reading then (ls, l.failed)
    else if |ls| == 1 then
      var l' :=
        if incoming.Data?
        then l.(buffer := incoming.buffer, version := incoming.version, validity := incoming.validity)
        else l;
      ([l'], l.failed)
    else
      var target := ls[1].(failed := ls[1].failed || l.failed);
      var (rest, threw) := PostRead(ls[1..][0 := target], incoming);
      if threw then ([l.(failed := false)] + rest, true)
      else
        var l' := l.(failed := false, validity := rest[0].validity, version := rest[0].version);
        if incoming.Data? then ([l'.(buffer := rest[0].buffer)] + rest[0 := rest[0].(buffer := l.buffer)], false)
        else ([l'] + rest, false)
  }

  /** postRead of a decorator whose transaction is open. */
  lemma {:induction false} PostReadDecorated<C>(l: Layer<C>, a: seq<Layer<C>>, incoming: Incoming<C>)
    requires l.reading && a != []
    ensures var (rest, threw) := PostRead(a[0 := a[0].(failed := a[0].failed || l.failed)], incoming);
            PostRead([l] + a, incoming) ==
            if threw then ([l.(reading := false, failed := false)] + rest, true)
            else
              var l' := l.(reading := false, failed := false, validity := rest[0].validity, version := rest[0].version);
              if incoming.Data? then ([l'.(buffer := rest[0].buffer)] + rest[0 := rest[0].(buffer := l.buffer)], false)
              else ([l'] + rest, false)
  {
    assert ([l] + a)[1..] == a;
  }

  datatype ReadResult<C> = ReadResult(layers: seq<Layer<C>>, threw: bool)

  /** TransferElement::read and readNonBlocking, once it is known what the transfer yields. */
  function Read<C>(ls: seq<Layer<C>>, refuses: bool, incoming: Incoming<C>): ReadResult<C>
    requires ls != []
  {
    var (a, threw) := PreRead(ls[0 := ls[0].(reading := false)], refuses);
    var failed := threw || incoming.Failure?;
    var (c, threw') := PostRead(Marked(a, failed), if failed then Failure else incoming);
    ReadResult(c, threw')
  }

  /** All layers agree on the meta data, as a read leaves it. */
  predicate Uniform<C>(ls: seq<Layer<C>>) {
    forall k :: 0 <= k < |ls| ==> ls[k].version == ls[0].version && ls[k].validity == ls[0].validity
  }

  lemma {:induction false} PreReadOpens<C>(ls: seq<Layer<C>>, refuses: bool)
    requires ls != [] && Quiet(ls)
    ensures var (a, threw) := PreRead(ls, refuses);
            && threw == refuses
            && forall k :: 0 <= k < |ls| ==> a[k] == ls[k].(reading := true, failed := false)
    decreases |ls|
  {
    if |ls| > 1 { PreReadOpens(ls[1..], refuses); }
  }

  /** Every layer has its read transaction open and no exception, except maybe the outermost one. */
  ghost predicate Open<C>(ls: seq<Layer<C>>) {
    forall k :: 0 <= k < |ls| ==> ls[k].reading && !ls[k].writing && (k > 0 ==> !ls[k].failed)
  }

  /** Buffers after a successful read: the new data on the outside, every other layer has its outer neighbour's old
      buffer, and the innermost buffer has been replaced. */
  ghost predicate ShiftedIn<C>(ls: seq<Layer<C>>, data: Incoming<C>, c: seq<Layer<C>>)
    requires data.Data?
  {
    && |c| == |ls| > 0
    && c[0].buffer == data.buffer
    && (forall k :: 1 <= k < |ls| ==> c[k].buffer == ls[k - 1].buffer)
    && (forall k :: 0 <= k < |ls| ==> c[k].version == data.version && c[k].validity == data.validity)
  }

  lemma {:induction false} PostReadShiftsIn<C>(ls: seq<Layer<C>>, data: Incoming<C>)
    requires ls != [] && Open(ls) && !ls[0].failed && data.Data?
    ensures var (c, threw) := PostRead(ls, data);
            !threw && ShiftedIn(ls, data, c) && Quiet(c) && NoneFailed(c)
    decreases |ls|
  {
    if |ls| > 1 {
      assert ls[1..][0 := ls[1]] == ls[1..];
      PostReadShiftsIn(ls[1..], data);
    }
  }

  /** Buffers as before, and the innermost element's meta data on all layers. */
  ghost predicate Levelled<C>(ls: seq<Layer<C>>, c: seq<Layer<C>>) {
    && |c| == |ls| > 0
    && forall k :: 0 <= k < |ls| ==>
         && c[k].buffer == ls[k].buffer
         && !c[k].writing && !c[k].reading
         && c[k].version == ls[|ls| - 1].version && c[k].validity == ls[|ls| - 1].validity
  }

  /** Buffers and meta data as before. */
  ghost predicate Untouched<C>(ls: seq<Layer<C>>, c: seq<Layer<C>>) {
    && Restored(ls, c, None)
    && forall k :: 0 <= k < |ls| ==> c[k].validity == ls[k].validity
  }

  /** If all layers agree, copying the meta data outwards changes nothing. */
  lemma LevelledUniform<C>(ls: seq<Layer<C>>, c: seq<Layer<C>>)
    requires Levelled(ls, c) && Uniform(ls)
    ensures Untouched(ls, c)
  {
    assert ls[|ls| - 1].version == ls[0].version;
  }

  /** Without new data no buffer changes. With an exception the meta data stays as well, without one it is copied
      outwards from the innermost element. */
  lemma {:induction false} PostReadWithoutData<C>(ls: seq<Layer<C>>, incoming: Incoming<C>)
    requires ls != [] && Open(ls) && !incoming.Data?
    ensures var (c, threw) := PostRead(ls, incoming);
            && threw == ls[0].failed
            && (forall k :: 0 <= k < |ls| ==> (c[k].failed <==> threw && k == |ls| - 1))
            && if threw then Untouched(ls, c) else Levelled(ls, c)
    decreases |ls|
  {
    if |ls| > 1 {
      var rest := ls[1..][0 := ls[1].(failed := ls[1].failed || ls[0].failed)];
      PostReadWithoutData(rest, incoming);
      var (c, threw) := PostRead(rest, incoming);
      var l := ls[0].(reading := false, failed := false);
      if threw {
        UntouchedOutwards(ls, rest, c, l);
      } else {
        LevelledOutwards(ls, rest, c, l.(validity := c[0].validity, version := c[0].version));
      }
    }
  }

  lemma UntouchedOutwards<C>(ls: seq<Layer<C>>, rest: seq<Layer<C>>, c: seq<Layer<C>>, l: Layer<C>)
    requires |ls| > 1 && |rest| == |ls| - 1 && rest == ls[1..][0 := ls[1].(failed := rest[0].failed)]
        && Untouched(rest, c)
    requires l == ls[0].(reading := false, failed := false) && !l.writing
    ensures Untouched(ls, [l] + c)
  {
    assert forall k :: 1 <= k < |ls| ==> ([l] + c)[k] == c[k - 1];
  }

  lemma LevelledOutwards<C>(ls: seq<Layer<C>>, rest: seq<Layer<C>>, c: seq<Layer<C>>, l: Layer<C>)
    requires |ls| > 1 && |rest| == |ls| - 1 && rest == ls[1..][0 := ls[1].(failed := rest[0].failed)]
        && Levelled(rest, c)
    requires l.buffer == ls[0].buffer && !l.writing && !l.reading && l.version == c[0].version
        && l.validity == c[0].validity
    ensures Levelled(ls, [l] + c)
  {
    assert forall k :: 1 <= k < |ls| ==> ([l] + c)[k] == c[k - 1];
  }

  /** A read through a stack of any depth either brings the received data and its meta data to all layers, or leaves
      the buffers alone. The meta data then stays as well, apart from the copying from the innermost element if the
      layers have not agreed before. */
  lemma ReadIsAllOrNothing<C>(ls: seq<Layer<C>>, refuses: bool, incoming: Incoming<C>)
    requires ls != [] && Quiet(ls)
    ensures var r := Read(ls, refuses, incoming);
            && (r.threw <==> refuses || incoming.Failure?)
            && Quiet(r.layers) && |r.layers| == |ls|
            && (forall k :: 0 <= k < |ls| ==> (r.layers[k].failed <==> r.threw && k == |ls| - 1))
            && if r.threw then Untouched(ls, r.layers)
               else if incoming.Data? then ShiftedIn(ls, incoming, r.layers)
               else Levelled(ls, r.layers)
  {
    assert ls[0 := ls[0].(reading := false)] == ls;
    PreReadOpens(ls, refuses);
    var (a, threw) := PreRead(ls, refuses);
    var failed := threw || incoming.Failure?;
    if !failed && incoming.Data? {
      ReadBringsData(ls, Marked(a, failed), incoming);
    } else {
      ReadBringsNothing(ls, Marked(a, failed), if failed then Failure else incoming);
    }
  }

  /** The layers as prepared for a read. */
  ghost predicate Started<C>(ls: seq<Layer<C>>, b: seq<Layer<C>>) {
    && |b| == |ls| > 0 && Open(b)
    && forall k :: 0 <= k < |ls| ==>
         b[k].buffer == ls[k].buffer && b[k].version == ls[k].version && b[k].validity == ls[k].validity
  }

  lemma {:induction false} ReadBringsData<C>(ls: seq<Layer<C>>, b: seq<Layer<C>>, data: Incoming<C>)
    requires Started(ls, b) && !b[0].failed && data.Data?
    ensures var (c, threw) := PostRead(b, data); !threw && ShiftedIn(ls, data, c) && Quiet(c) && NoneFailed(c)
  {
    PostReadShiftsIn(b, data);
  }

  lemma {:induction false} ReadBringsNothing<C>(ls: seq<Layer<C>>, b: seq<Layer<C>>, incoming: Incoming<C>)
    requires Started(ls, b) && !incoming.Data?
    ensures var (c, threw) := PostRead(b, incoming);
            && threw == b[0].failed && Quiet(c)
            && (forall k :: 0 <= k < |ls| ==> (c[k].failed <==> threw && k == |ls| - 1))
            && if threw then Untouched(ls, c) else Levelled(ls, c)
  {
    PostReadWithoutData(b, incoming);
  }
}

/**
 Concurrent writers on one bar of a device. Each writer is an element which owns the bytes of one register, or of
 several ones if it has been merged, and transfers a raw window around them. Writers which have the flag _isUnaligned
 take the backend's lock, read the window, fill in their bytes, write the window and unlock; the others write their
 window directly. The steps of different writers interleave freely.
 */
module UnalignedWrites {
  import opened Samples
  import opened AlignedWindow
  import opened Splicing

  /** A low-level transfer element: the registers it serves, the bytes it transfers, and _isUnaligned. */
  datatype Writer = Writer(own: seq<Window>, raw: Window, locks: bool) {
    /** Byte b belongs to one of the registers. */
    predicate Owns(b: nat) {
      exists k :: 0 <= k < |own| && own[k].Contains(b)
    }
  }

  datatype Phase<D> =
    | Idle
    | Locked                // lock taken, window not yet read
    | Ready(buf: seq<D>)    // preWrite of the raw accessor is done
    | Filled(buf: seq<D>)   // register contents have been put into the raw buffer
    | Done                  // transfer finished or failed, postWrite outstanding

  datatype Bus<D> = Bus(
    memory: seq<D>,
    holder: Option<nat>,    // owner of the mutex _unalignedAccess
    phases: seq<Phase<D>>)

  datatype Event<D> =
    | Lock(i: nat)
    | Load(i: nat)
    | Begin(i: nat, leftover: seq<D>)  // direct writer; its raw buffer holds whatever the last transfer left there
    | Fill(i: nat, content: seq<D>)    // content covers the window, the bytes owned by the writer are taken from it
    | Transfer(i: nat)
    | Tear(i: nat, left: seq<D>)       // the write throws after some bytes have reached the device
    | Abort(i: nat)                    // the read or the write throws, the device is not changed
    | Finish(i: nat)

  /** Registers are non-empty, inside the window, and those of different writers are disjoint. */
  ghost predicate SetUp(ws: seq<Writer>, size: nat) {
    && (forall i :: 0 <= i < |ws| ==> ws[i].raw.End() <= size)
    && (forall i, w :: 0 <= i < |ws| && w in ws[i].own ==> w.bytes > 0 && ws[i].raw.Covers(w))
    && (forall i, j, b :: 0 <= i < |ws| && 0 <= j < |ws| && i != j && ws[i].Owns(b) ==> !ws[j].Owns(b))
  }

  lemma OwnedInside(ws: seq<Writer>, size: nat, i: nat, b: nat)
    requires SetUp(ws, size) && i < |ws| && ws[i].Owns(b)
    ensures ws[i].raw.Contains(b) && b < size
  {
    var k :| 0 <= k < |ws[i].own| && ws[i].own[k].Contains(b);
    assert ws[i].own[k] in ws[i].own;
  }

  ghost predicate Start<D>(ws: seq<Writer>, s: Bus<D>) {
    && SetUp(ws, |s.memory|)
    && |s.phases| == |ws|
    && s.holder.None?
    && forall i :: 0 <= i < |ws| ==> s.phases[i].Idle?
  }

  ghost predicate Allowed<D>(ws: seq<Writer>, s: Bus<D>, e: Event<D>) {
    && |s.phases| == |ws|
    && e.i < |ws|
    && var w, p := ws[e.i], s.phases[e.i];
       && w.raw.End() <= |s.memory|
       && match e
          case Lock(_) => p.Idle? && w.locks && s.holder.None?
          case Load(_) => p.Locked?
          case Begin(_, leftover) => p.Idle? && !w.locks && |leftover| == w.raw.bytes
          case Fill(_, content) => p.Ready? && |p.buf| == |content| == w.raw.bytes
          case Transfer(_) => p.Filled? && |p.buf| == w.raw.bytes
          case Tear(_, left) => p.Filled? && |p.buf| == w.raw.bytes
            && Torn(left, p.buf, s.memory[w.raw.start..w.raw.End()])
          case Abort(_) => p.Locked? || p.Filled?
          case Finish(_) => p.Done?
  }

  /** Each byte is the new or the old one. */
  ghost predicate Torn<D>(left: seq<D>, buf: seq<D>, before: seq<D>) {
    && |left| == |buf| == |before|
    && forall k :: 0 <= k < |left| ==> left[k] == buf[k] || left[k] == before[k]
  }

  /** The raw buffer with the writer's registers filled in. */
  function FilledIn<D>(w: Writer, buf: seq<D>, content: seq<D>): (r: seq<D>)
    requires |buf| == |content| == w.raw.bytes
    ensures |r| == w.raw.bytes
  {
    seq(|buf|, k requires 0 <= k < |buf| => if w.Owns(w.raw.start + k) then content[k] else buf[k])
  }

  /** For a single register this is the splice of its content at its offset. */
  lemma FilledInOneRegister<D>(w: Writer, own: Window, buf: seq<D>, content: seq<D>)
    requires |buf| == |content| == w.raw.bytes && w.own == [own] && w.raw.Covers(own)
    ensures var k := own.start - w.raw.start;
            FilledIn(w, buf, content) == Splice(buf, k, content[k..][..own.bytes])
  {
    var k := own.start - w.raw.start;
    assert forall b: nat :: w.Owns(b) <==> own.Contains(b) by {
      forall b: nat ensures w.Owns(b) <==> own.Contains(b) {
        if own.Contains(b) { assert w.own[0].Contains(b); }
      }
    }
  }

  /** A window reaches the device. */
  function Put<D>(s: Bus<D>, i: nat, w: Writer, buf: seq<D>): Bus<D>
    requires i < |s.phases| && |buf| == w.raw.bytes && w.raw.End() <= |s.memory|
  {
    s.(memory := Splice(s.memory, w.raw.start, buf), phases := s.phases[i := Done])
  }

  ghost function Step<D>(ws: seq<Writer>, s: Bus<D>, e: Event<D>): (s': Bus<D>)
    requires Allowed(ws, s, e)
    ensures |s'.memory| == |s.memory|
  {
    var i, w, p := e.i, ws[e.i], s.phases[e.i];
    match e
    case Lock(_) => s.(holder := Some(i), phases := s.phases[i := Locked])
    case Load(_) => s.(phases := s.phases[i := Ready(s.memory[w.raw.start..w.raw.End()])])
    case Begin(_, leftover) => s.(phases := s.phases[i := Ready(leftover)])
    case Fill(_, content) => s.(phases := s.phases[i := Filled(FilledIn(w, p.buf, content))])
    case Transfer(_) => Put(s, i, w, p.buf)
    case Tear(_, left) => Put(s, i, w, left)
    case Abort(_) => s.(phases := s.phases[i := Done])
    case Finish(_) => s.(holder := if s.holder == Some(i) then None else s.holder, phases := s.phases[i := Idle])
  }

  ghost predicate Legal<D>(ws: seq<Writer>, s: Bus<D>, events: seq<Event<D>>)
    decreases |events|
  {
    events == [] || (Allowed(ws, s, events[0]) && Legal(ws, Step(ws, s, events[0]), events[1..]))
  }

  ghost function Run<D>(ws: seq<Writer>, s: Bus<D>, events: seq<Event<D>>): (s': Bus<D>)
    requires Legal(ws, s, events)
    ensures |s'.memory| == |s.memory|
    decreases |events|
  {
    if events == [] then s else Run(ws, Step(ws, s, events[0]), events[1..])
  }

  // ----- the reference: what has been asked for

  /** The content writer i has last been asked to put into its registers. */
  ghost function Asked<D>(events: seq<Event<D>>, i: nat): Option<seq<D>> {
    if events == [] then None
    else
      var n := |events| - 1;
      if events[n].Fill? && events[n].i == i then Some(events[n].content) else Asked(events[..n], i)
  }

  /** Writer i has been asked to put d into byte b. */
  ghost predicate IsAsked<D>(ws: seq<Writer>, events: seq<Event<D>>, i: nat, b: nat, d: D)
    requires i < |ws|
  {
    && ws[i].raw.start <= b
    && Asked(events, i).Some?
    && b - ws[i].raw.start < |Asked(events, i).value|
    && Asked(events, i).value[b - ws[i].raw.start] == d
  }

  /** The event puts something into byte b on behalf of the owner of b. */
  ghost predicate Puts<D>(ws: seq<Writer>, e: Event<D>, b: nat) {
    (e.Transfer? || e.Tear?) && e.i < |ws| && ws[e.i].Owns(b)
  }

  /** Byte b of a register may be d after these events: it is what the owner has been asked for before its last
      transfer, or initially there. If the last transfer has failed half-way, it may also be what has been there before
      that. */
  ghost predicate MayHold<D>(ws: seq<Writer>, initial: seq<D>, events: seq<Event<D>>, b: nat, d: D)
    requires b < |initial|
  {
    if events == [] then d == initial[b]
    else
      var n := |events| - 1;
      var e := events[n];
      if Puts(ws, e, b) then IsAsked(ws, events[..n], e.i, b, d) || (e.Tear? && MayHold(ws, initial, events[..n], b, d))
      else MayHold(ws, initial, events[..n], b, d)
  }

  ghost predicate Owned(ws: seq<Writer>, b: nat) {
    exists i :: 0 <= i < |ws| && ws[i].Owns(b)
  }

  /** No update is lost: every byte of every register is what its owner has been asked for. */
  ghost predicate NothingLost<D>(ws: seq<Writer>, initial: seq<D>, events: seq<Event<D>>, memory: seq<D>) {
    && |memory| == |initial|
    && forall b :: 0 <= b < |initial| && Owned(ws, b) ==> MayHold(ws, initial, events, b, memory[b])
  }

  /** The condition under which nothing gets lost: a raw window reaches into a register of another writer only if both
      take the lock. */
  ghost predicate Separated(ws: seq<Writer>) {
    forall i, j, b :: 0 <= i < |ws| && 0 <= j < |ws| && i != j && ws[i].raw.Contains(b) && ws[j].Owns(b)
      ==> ws[i].locks && ws[j].locks
  }

  // ----- elements as they are set up and merged

  /** The element which has come about by the given merges. setAddress pads the window and remembers whether it had to;
      it is called for the request, and again for the union of the windows of a merge. */
  function ElementOf(m: Merge, a: nat): Writer
    requires a > 0
  {
    var asked := match m case Request(w) => w case Join(l, r) => Merged(l.Window(a), r.Window(a));
    Writer(m.Requests(), Padded(asked, a), Padded(asked, a) != asked)
  }

  ghost predicate Elements(ws: seq<Writer>, ms: seq<Merge>, a: nat)
    requires a > 0
  {
    && |ms| == |ws|
    && forall i :: 0 <= i < |ws| ==> ms[i].Touches(a) && ws[i] == ElementOf(ms[i], a)
  }

  /** A merged element never counts as unaligned. */
  lemma {:induction false} MergedNeverLocks(m: Merge, a: nat)
    requires a > 0 && m.Touches(a)
    ensures ElementOf(m, a).raw == m.Window(a)
    ensures m.Join? ==> !ElementOf(m, a).locks
  {
    MergeIsUnion(m, a);
  }

  /** Some merged window contains a byte of a foreign register. */
  ghost predicate MergedOverForeign(ws: seq<Writer>, ms: seq<Merge>) {
    exists i, j, b :: 0 <= i < |ws| == |ms| && 0 <= j < |ws| && i != j && ms[i].Join? && ws[i].raw.Contains(b)
      && ws[j].Owns(b)
  }

  /** The padding of an unmerged element reaches into a register of an element which does not lock only if the aligned
      window of that element contains a byte of this one's register. */
  lemma PaddingMeetsWindow(w: Window, v: Window, a: nat, b: nat) returns (c: nat)
    requires a > 0 && w.bytes > 0 && v.IsAligned(a) && Padded(w, a).Contains(b) && v.Contains(b)
    ensures w.Contains(c) && v.Contains(c)
  {
    if forall c :: !(w.Contains(c) && v.Contains(c)) {
      AlignedAvoidsPadded(w, v, a);
      assert false;
    }
    c :| w.Contains(c) && v.Contains(c);
  }

  lemma ForeignByte(ws: seq<Writer>, ms: seq<Merge>, a: nat, size: nat, i: nat, j: nat, b: nat)
    requires a > 0 && SetUp(ws, size) && Elements(ws, ms, a)
    requires i < |ws| && j < |ws| && i != j && ws[i].raw.Contains(b) && ws[j].Owns(b) && !(ws[i].locks && ws[j].locks)
    ensures MergedOverForeign(ws, ms)
  {
    MergedNeverLocks(ms[i], a);
    MergedNeverLocks(ms[j], a);
    MergeIsUnion(ms[j], a);
    OwnedInside(ws, size, j, b);
    if ms[i].Request? {
      var w := ms[i].w;
      assert ws[i].own == [w] && w in ws[i].own;
      if ms[j].Request? {
        UnmergedMeet(ws, ms, a, size, i, j, b);
      } else {
        var c := PaddingMeetsWindow(w, ws[j].raw, a, b);
        assert ws[i].own[0].Contains(c);
        assert ws[i].Owns(c);
      }
    }
  }

  /** Two unmerged elements which meet outside of their registers both take the lock. */
  lemma UnmergedMeet(ws: seq<Writer>, ms: seq<Merge>, a: nat, size: nat, i: nat, j: nat, b: nat)
    requires a > 0 && SetUp(ws, size) && Elements(ws, ms, a)
    requires i < |ws| && j < |ws| && i != j && ws[i].raw.Contains(b) && ws[j].Owns(b)
    requires ms[i].Request? && ms[j].Request?
    ensures ws[i].locks && ws[j].locks
  {
    var w, v := ms[i].w, ms[j].w;
    OwnedInside(ws, size, j, b);
    assert ws[i].own == [w] && w in ws[i].own && ws[j].own == [v] && v in ws[j].own;
    if !ws[j].locks {
      PaddedIsSmallest(v, a);
      var c := PaddingMeetsWindow(w, v, a, b);
      assert ws[i].own[0].Contains(c) && ws[j].own[0].Contains(c);
      assert ws[i].Owns(c) && ws[j].Owns(c);
      assert false;
    }
    if !ws[i].locks {
      assert ws[i].own[0].Contains(b);
      assert ws[i].Owns(b);
      assert false;
    }
  }

  /** Elements as the code sets them up and merges them are separated exactly if no merged window contains a byte of a
      foreign register. In particular they are as long as nothing has been merged. */
  lemma ElementsSeparatedIff(ws: seq<Writer>, ms: seq<Merge>, a: nat, size: nat)
    requires a > 0 && SetUp(ws, size) && Elements(ws, ms, a)
    ensures Separated(ws) <==> !MergedOverForeign(ws, ms)
  {
    if !Separated(ws) {
      var i, j, b :| 0 <= i < |ws| && 0 <= j < |ws| && i != j && ws[i].raw.Contains(b) && ws[j].Owns(b)
                     && !(ws[i].locks && ws[j].locks);
      ForeignByte(ws, ms, a, size, i, j, b);
    }
    if MergedOverForeign(ws, ms) {
      var i, j, b :| 0 <= i < |ws| && 0 <= j < |ws| && i != j && ms[i].Join? && ws[i].raw.Contains(b) && ws[j].Owns(b);
      MergedNeverLocks(ms[i], a);
    }
  }

  // ----- sufficiency

  /** What a writer holding the lock has read is still valid in all registers, apart from its own new content. */
  ghost predicate BufferValid<D>(ws: seq<Writer>, s: Bus<D>, i: nat, buf: seq<D>, filled: bool)
    requires i < |ws|
  {
    var w := ws[i];
    && |buf| == w.raw.bytes && w.raw.End() <= |s.memory|
    && (w.locks ==> forall b :: w.raw.start <= b < w.raw.End() && Owned(ws, b) && !(filled && w.Owns(b)) ==>
                      buf[b - w.raw.start] == s.memory[b])
  }

  /** The raw buffer of writer i contains what it has been asked for. */
  ghost predicate FilledAsAsked<D>(ws: seq<Writer>, events: seq<Event<D>>, i: nat, buf: seq<D>)
    requires i < |ws|
  {
    && |buf| == ws[i].raw.bytes
    && forall b: nat :: ws[i].raw.Contains(b) && ws[i].Owns(b) ==> IsAsked(ws, events, i, b, buf[b - ws[i].raw.start])
  }

  /** The lock is held by the locking writer which is not idle. */
  ghost predicate Exclusive<D>(ws: seq<Writer>, s: Bus<D>) {
    && |s.phases| == |ws|
    && (s.holder.Some? ==> s.holder.value < |ws|)
    && forall i :: 0 <= i < |ws| ==> ((ws[i].locks && !s.phases[i].Idle?) <==> s.holder == Some(i))
  }

  ghost predicate BuffersOk<D>(ws: seq<Writer>, events: seq<Event<D>>, s: Bus<D>)
    requires |s.phases| == |ws|
  {
    && (forall i :: 0 <= i < |ws| && s.phases[i].Ready? ==> BufferValid(ws, s, i, s.phases[i].buf, false))
    && (forall i :: 0 <= i < |ws| && s.phases[i].Filled? ==>
          BufferValid(ws, s, i, s.phases[i].buf, true) && FilledAsAsked(ws, events, i, s.phases[i].buf))
  }

  /** What holds after the events `done`. */
  ghost predicate Inv<D>(ws: seq<Writer>, initial: seq<D>, done: seq<Event<D>>, s: Bus<D>) {
    && SetUp(ws, |s.memory|)
    && Exclusive(ws, s)
    && NothingLost(ws, initial, done, s.memory)
    && BuffersOk(ws, done, s)
  }

  /** What may reach the device: the raw buffer, or a mixture of it with what has been there. */
  ghost predicate MayReach<D>(ws: seq<Writer>, s: Bus<D>, i: nat, buf: seq<D>) {
    && Allowed(ws, s, Transfer(i))
    && Torn(buf, s.phases[i].buf, s.memory[ws[i].raw.start..ws[i].raw.End()])
  }

  /** Which bytes of registers change: none but the writer's own. */
  lemma PutChangesOwn<D>(ws: seq<Writer>, initial: seq<D>, done: seq<Event<D>>, s: Bus<D>, i: nat, buf: seq<D>)
    requires Inv(ws, initial, done, s) && Separated(ws) && MayReach(ws, s, i, buf)
    ensures var s', w := Put(s, i, ws[i], buf), ws[i];
            forall b :: 0 <= b < |s.memory| && Owned(ws, b) && !w.Owns(b) ==> s'.memory[b] == s.memory[b]
    ensures var s', w := Put(s, i, ws[i], buf), ws[i];
            forall b: nat :: w.raw.Contains(b) ==> s'.memory[b] == buf[b - w.raw.start]
  {
    var w := ws[i];
    forall b | 0 <= b < |s.memory| && Owned(ws, b) && !w.Owns(b)
      ensures Put(s, i, w, buf).memory[b] == s.memory[b]
    {
      if w.raw.Contains(b) {
        var j :| 0 <= j < |ws| && ws[j].Owns(b);
        assert w.locks && ws[j].locks;
        assert BufferValid(ws, s, i, s.phases[i].buf, true);
        assert s.memory[w.raw.start..w.raw.End()][b - w.raw.start] == s.memory[b];
      }
    }
  }

  /** One more event. */
  lemma {:induction false} MayHoldSnoc<D>(ws: seq<Writer>, initial: seq<D>, done: seq<Event<D>>, e: Event<D>, b: nat,
                                          d: D)
    requires b < |initial|
    ensures MayHold(ws, initial, done + [e], b, d) <==>
              if Puts(ws, e, b) then IsAsked(ws, done, e.i, b, d) || (e.Tear? && MayHold(ws, initial, done, b, d))
              else MayHold(ws, initial, done, b, d)
  {
    assert (done + [e])[..|done|] == done;
  }

  lemma {:induction false} AskedSnoc<D>(done: seq<Event<D>>, e: Event<D>, i: nat)
    ensures Asked(done + [e], i) == if e.Fill? && e.i == i then Some(e.content) else Asked(done, i)
  {
    assert (done + [e])[..|done|] == done;
  }

  /** The event by which buf reaches the device. */
  ghost predicate Brings<D>(s: Bus<D>, e: Event<D>, buf: seq<D>)
    requires e.i < |s.phases|
  {
    (e.Transfer? && s.phases[e.i].Filled? && buf == s.phases[e.i].buf) || (e.Tear? && buf == e.left)
  }

  lemma PutLosesNothing<D>(ws: seq<Writer>, initial: seq<D>, done: seq<Event<D>>, s: Bus<D>, e: Event<D>, buf: seq<D>)
    requires Inv(ws, initial, done, s) && Separated(ws) && MayReach(ws, s, e.i, buf) && Brings(s, e, buf)
    ensures NothingLost(ws, initial, done + [e], Put(s, e.i, ws[e.i], buf).memory)
  {
    var i, s' := e.i, Put(s, e.i, ws[e.i], buf);
    PutChangesOwn(ws, initial, done, s, i, buf);
    forall b | 0 <= b < |initial| && Owned(ws, b)
      ensures MayHold(ws, initial, done + [e], b, s'.memory[b])
    {
      MayHoldSnoc(ws, initial, done, e, b, s'.memory[b]);
      if ws[i].Owns(b) { PutOwnByte(ws, initial, done, s, e, buf, b); }
    }
  }

  /** A byte of the writer's own registers. */
  lemma {:induction false} PutOwnByte<D>(ws: seq<Writer>, initial: seq<D>, done: seq<Event<D>>, s: Bus<D>, e: Event<D>,
                                         buf: seq<D>, b: nat)
    requires Inv(ws, initial, done, s) && MayReach(ws, s, e.i, buf) && Brings(s, e, buf)
    requires b < |initial| && ws[e.i].Owns(b)
    ensures var d := Put(s, e.i, ws[e.i], buf).memory[b];
            IsAsked(ws, done, e.i, b, d) || (e.Tear? && MayHold(ws, initial, done, b, d))
  {
    var w := ws[e.i];
    OwnedInside(ws, |s.memory|, e.i, b);
    var k := b - w.raw.start;
    assert FilledAsAsked(ws, done, e.i, s.phases[e.i].buf);
    assert s.memory[w.raw.start..w.raw.End()][k] == s.memory[b];
    assert Put(s, e.i, w, buf).memory[b] == buf[k];
    assert buf[k] == s.phases[e.i].buf[k] || (e.Tear? && buf[k] == s.memory[b]);
  }

  /** A writer holding the lock keeps a valid buffer while others put theirs on the device: they are direct writers,
      whose registers its window does not touch. */
  lemma PutKeepsBuffer<D>(ws: seq<Writer>, initial: seq<D>, done: seq<Event<D>>, s: Bus<D>, i: nat, buf: seq<D>, k: nat,
                          filled: bool)
    requires Inv(ws, initial, done, s) && Separated(ws) && MayReach(ws, s, i, buf)
    requires k < |ws| && k != i && (s.phases[k].Ready? || s.phases[k].Filled?) && filled == s.phases[k].Filled?
    ensures BufferValid(ws, Put(s, i, ws[i], buf), k, s.phases[k].buf, filled)
  {
    var s' := Put(s, i, ws[i], buf);
    PutChangesOwn(ws, initial, done, s, i, buf);
    assert BufferValid(ws, s, k, s.phases[k].buf, filled);
    if ws[k].locks {
      assert s.holder == Some(k);
      assert !ws[i].locks;
      forall b | ws[k].raw.start <= b < ws[k].raw.End() && Owned(ws, b) ensures s'.memory[b] == s.memory[b] {
        assert ws[k].raw.Contains(b);
        assert !ws[i].Owns(b);
      }
    }
  }

  /** What a writer has been asked for changes with its own Fill only. */
  lemma StillAsAsked<D>(ws: seq<Writer>, done: seq<Event<D>>, e: Event<D>, k: nat, buf: seq<D>)
    requires k < |ws| && FilledAsAsked(ws, done, k, buf) && !(e.Fill? && e.i == k)
    ensures FilledAsAsked(ws, done + [e], k, buf)
  {
    AskedSnoc(done, e, k);
  }

  lemma PutKeepsBuffers<D>(ws: seq<Writer>, initial: seq<D>, done: seq<Event<D>>, s: Bus<D>, e: Event<D>, buf: seq<D>)
    requires Inv(ws, initial, done, s) && Separated(ws) && MayReach(ws, s, e.i, buf) && Brings(s, e, buf)
    ensures BuffersOk(ws, done + [e], Put(s, e.i, ws[e.i], buf))
  {
    var s' := Put(s, e.i, ws[e.i], buf);
    forall k | 0 <= k < |ws| && (s'.phases[k].Ready? || s'.phases[k].Filled?)
      ensures BufferValid(ws, s', k, s'.phases[k].buf, s'.phases[k].Filled?)
      ensures s'.phases[k].Filled? ==> FilledAsAsked(ws, done + [e], k, s'.phases[k].buf)
    {
      PutKeepsBuffer(ws, initial, done, s, e.i, buf, k, s.phases[k].Filled?);
      if s.phases[k].Filled? { StillAsAsked(ws, done, e, k, s.phases[k].buf); }
    }
  }

  lemma PutStep<D>(ws: seq<Writer>, initial: seq<D>, done: seq<Event<D>>, s: Bus<D>, e: Event<D>, buf: seq<D>)
    requires Inv(ws, initial, done, s) && Separated(ws) && MayReach(ws, s, e.i, buf) && Brings(s, e, buf)
    ensures Inv(ws, initial, done + [e], Put(s, e.i, ws[e.i], buf))
  {
    PutLosesNothing(ws, initial, done, s, e, buf);
    PutKeepsBuffers(ws, initial, done, s, e, buf);
    hide NothingLost, BuffersOk;
  }

  /** An event which puts nothing on the device. */
  lemma NothingPut<D>(ws: seq<Writer>, initial: seq<D>, done: seq<Event<D>>, memory: seq<D>, e: Event<D>)
    requires NothingLost(ws, initial, done, memory) && !e.Transfer? && !e.Tear?
    ensures NothingLost(ws, initial, done + [e], memory)
  {
    forall b | 0 <= b < |initial| && Owned(ws, b)
      ensures MayHold(ws, initial, done + [e], b, memory[b])
    {
      MayHoldSnoc(ws, initial, done, e, b, memory[b]);
    }
  }

  /** A writer which goes on to the next phase, with a valid buffer, while the device stays as it is. */
  lemma PhaseChangeKeepsInv<D>(ws: seq<Writer>, initial: seq<D>, done: seq<Event<D>>, s: Bus<D>, e: Event<D>,
                               p: Phase<D>,
                               holder: Option<nat>)
    requires Inv(ws, initial, done, s) && e.i < |ws| && !e.Transfer? && !e.Tear?
    requires p.Ready? || p.Filled? ==> BufferValid(ws, s, e.i, p.buf, p.Filled?)
    requires p.Filled? ==> FilledAsAsked(ws, done + [e], e.i, p.buf)
    requires (ws[e.i].locks && !p.Idle?) <==> holder == Some(e.i)
    requires holder.Some? ==> holder.value < |ws|
    requires forall k :: 0 <= k < |ws| && k != e.i ==> (holder == Some(k) <==> s.holder == Some(k))
    ensures Inv(ws, initial, done + [e], s.(phases := s.phases[e.i := p], holder := holder))
  {
    var s' := s.(phases := s.phases[e.i := p], holder := holder);
    NothingPut(ws, initial, done, s.memory, e);
    forall k | 0 <= k < |ws| && (s'.phases[k].Ready? || s'.phases[k].Filled?)
      ensures BufferValid(ws, s', k, s'.phases[k].buf, s'.phases[k].Filled?)
      ensures s'.phases[k].Filled? ==> FilledAsAsked(ws, done + [e], k, s'.phases[k].buf)
    {
      if k != e.i {
        assert BufferValid(ws, s, k, s.phases[k].buf, s.phases[k].Filled?);
        if s.phases[k].Filled? { StillAsAsked(ws, done, e, k, s.phases[k].buf); }
      }
    }
  }

  lemma FillStep<D>(ws: seq<Writer>, initial: seq<D>, done: seq<Event<D>>, s: Bus<D>, i: nat, content: seq<D>)
    requires Inv(ws, initial, done, s) && Allowed(ws, s, Fill(i, content))
    ensures Inv(ws, initial, done + [Fill(i, content)], Step(ws, s, Fill(i, content)))
  {
    assert BufferValid(ws, s, i, s.phases[i].buf, false);
    AskedSnoc(done, Fill(i, content), i);
    PhaseChangeKeepsInv(ws, initial, done, s, Fill(i, content), Filled(FilledIn(ws[i], s.phases[i].buf, content)),
      s.holder);
  }

  lemma OtherStep<D>(ws: seq<Writer>, initial: seq<D>, done: seq<Event<D>>, s: Bus<D>, e: Event<D>)
    requires Inv(ws, initial, done, s) && Allowed(ws, s, e) && !e.Transfer? && !e.Tear? && !e.Fill?
    ensures Inv(ws, initial, done + [e], Step(ws, s, e))
  {
    var s' := Step(ws, s, e);
    PhaseChangeKeepsInv(ws, initial, done, s, e, s'.phases[e.i], s'.holder);
  }

  lemma StepLosesNothing<D>(ws: seq<Writer>, initial: seq<D>, done: seq<Event<D>>, s: Bus<D>, e: Event<D>)
    requires Inv(ws, initial, done, s) && Separated(ws) && Allowed(ws, s, e)
    ensures Inv(ws, initial, done + [e], Step(ws, s, e))
  {
    match e
    case Transfer(i) => PutStep(ws, initial, done, s, e, s.phases[i].buf);
    case Tear(i, left) => PutStep(ws, initial, done, s, e, left);
    case Fill(i, content) => FillStep(ws, initial, done, s, i, content);
    case _ => OtherStep(ws, initial, done, s, e);
  }

  /** Any interleaving of separated writers loses nothing, torn writes included. */
  lemma {:induction false} SeparatedRunLosesNothing<D>(ws: seq<Writer>, initial: seq<D>, done: seq<Event<D>>, s: Bus<D>,
                                                       events: seq<Event<D>>)
    requires Inv(ws, initial, done, s) && Separated(ws) && Legal(ws, s, events)
    ensures Inv(ws, initial, done + events, Run(ws, s, events))
    decreases |events|
  {
    if events == [] {
      assert done + events == done;
    } else {
      RunFirst(ws, s, events);
      hide Inv, Step, Allowed, Separated, Legal, Run;
      StepLosesNothing(ws, initial, done, s, events[0]);
      SeparatedRunLosesNothing(ws, initial, done + [events[0]], Step(ws, s, events[0]), events[1..]);
      assert done + [events[0]] + events[1..] == done + events;
    }
  }

  // ----- necessity

  /** A value different from d. */
  ghost function Other<D>(x: D, y: D, d: D): D {
    if d == x then y else x
  }

  function Fills<D>(n: nat, z: D): seq<D> {
    seq(n, _ => z)
  }

  lemma {:induction false} RunFirst<D>(ws: seq<Writer>, s: Bus<D>, es: seq<Event<D>>)
    requires es != []
    ensures Legal(ws, s, es) <==> Allowed(ws, s, es[0]) && Legal(ws, Step(ws, s, es[0]), es[1..])
    ensures Legal(ws, s, es) ==> Run(ws, s, es) == Run(ws, Step(ws, s, es[0]), es[1..])
  {
  }

  lemma {:induction false} RunPrepended<D>(ws: seq<Writer>, s: Bus<D>, e: Event<D>, s1: Bus<D>, es: seq<Event<D>>)
    requires Allowed(ws, s, e) && s1 == Step(ws, s, e) && Legal(ws, s1, es)
    ensures Legal(ws, s, [e] + es) && Run(ws, s, [e] + es) == Run(ws, s1, es)
  {
    hide Step, Allowed;
    assert ([e] + es)[1..] == es;
  }

  lemma {:induction false} RunConcat<D>(ws: seq<Writer>, s: Bus<D>, es: seq<Event<D>>, fs: seq<Event<D>>)
    requires Legal(ws, s, es) && Legal(ws, Run(ws, s, es), fs)
    ensures Legal(ws, s, es + fs) && Run(ws, s, es + fs) == Run(ws, Run(ws, s, es), fs)
    decreases |es|
  {
    if es == [] {
      assert es + fs == fs;
    } else {
      hide Step, Allowed;
      RunFirst(ws, s, es);
      RunConcat(ws, Step(ws, s, es[0]), es[1..], fs);
      RunConcatPrepended(ws, s, es[0], es[1..], fs);
      assert es == [es[0]] + es[1..];
    }
  }

  lemma {:induction false} RunConcatPrepended<D>(ws: seq<Writer>, s: Bus<D>, e: Event<D>, es: seq<Event<D>>,
                                                 fs: seq<Event<D>>)
    requires Allowed(ws, s, e)
    requires var s1 := Step(ws, s, e);
             && Legal(ws, s1, es) && Legal(ws, Run(ws, s1, es), fs) && Legal(ws, s1, es + fs)
             && Run(ws, s1, es + fs) == Run(ws, Run(ws, s1, es), fs)
    ensures Legal(ws, s, [e] + es) && Legal(ws, s, [e] + es + fs)
    ensures Run(ws, s, [e] + es + fs) == Run(ws, Run(ws, s, [e] + es), fs)
  {
    hide Step, Allowed;
    var s1 := Step(ws, s, e);
    RunPrepended(ws, s, e, s1, es);
    RunPrepended(ws, s, e, s1, es + fs);
    assert [e] + es + fs == [e] + (es + fs);
  }

  lemma {:induction false} RunOne<D>(ws: seq<Writer>, s: Bus<D>, e: Event<D>)
    requires Allowed(ws, s, e)
    ensures Legal(ws, s, [e]) && Run(ws, s, [e]) == Step(ws, s, e)
  {
    assert [e][1..] == [];
  }

  lemma {:induction false} RunTwo<D>(ws: seq<Writer>, s: Bus<D>, e: Event<D>, f: Event<D>)
    requires Allowed(ws, s, e) && Allowed(ws, Step(ws, s, e), f)
    ensures Legal(ws, s, [e, f]) && Run(ws, s, [e, f]) == Step(ws, Step(ws, s, e), f)
  {
    RunOne(ws, s, e);
    RunOne(ws, Step(ws, s, e), f);
    RunConcat(ws, s, [e], [f]);
    assert [e] + [f] == [e, f];
  }

  /** Nothing is put into byte b on behalf of its owner by these events. */
  ghost predicate NonePuts<D>(ws: seq<Writer>, events: seq<Event<D>>, b: nat) {
    forall k :: 0 <= k < |events| ==> !Puts(ws, events[k], b)
  }

  lemma {:induction false} OthersDoNotMatter<D>(ws: seq<Writer>, initial: seq<D>, es: seq<Event<D>>, fs: seq<Event<D>>,
                                                b: nat, d: D)
    requires b < |initial| && NonePuts(ws, fs, b)
    ensures MayHold(ws, initial, es + fs, b, d) <==> MayHold(ws, initial, es, b, d)
  {
    if fs == [] {
      assert es + fs == es;
    } else {
      var n := |fs| - 1;
      assert es + fs == (es + fs[..n]) + [fs[n]];
      MayHoldSnoc(ws, initial, es + fs[..n], fs[n], b, d);
      OthersDoNotMatter(ws, initial, es, fs[..n], b, d);
    }
  }

  /** After a transfer of its owner, byte b has to be what the owner has been asked for, until the owner's next one. */
  lemma {:induction false} AskedAndTransferred<D>(ws: seq<Writer>, initial: seq<D>, es: seq<Event<D>>, j: nat,
                                                  fs: seq<Event<D>>, b: nat, d: D)
    requires b < |initial| && j < |ws| && ws[j].Owns(b) && NonePuts(ws, fs, b)
    ensures MayHold(ws, initial, es + [Transfer(j)] + fs, b, d) <==> IsAsked(ws, es, j, b, d)
  {
    OthersDoNotMatter(ws, initial, es + [Transfer(j)], fs, b, d);
    MayHoldSnoc(ws, initial, es, Transfer(j), b, d);
  }

  /** A direct writer writes its whole window, full of z. */
  function DirectWrite<D>(ws: seq<Writer>, i: nat, z: D): seq<Event<D>>
    requires i < |ws|
  {
    [Begin(i, Fills(ws[i].raw.bytes, z)), Fill(i, Fills(ws[i].raw.bytes, z)), Transfer(i)]
  }

  lemma {:induction false} DirectWriteRuns<D>(ws: seq<Writer>, s: Bus<D>, i: nat, z: D)
    requires SetUp(ws, |s.memory|) && |s.phases| == |ws|
    requires i < |ws| && !ws[i].locks && s.phases[i].Idle?
    ensures Legal(ws, s, DirectWrite(ws, i, z))
    ensures Run(ws, s, DirectWrite(ws, i, z)) ==
            s.(memory := Splice(s.memory, ws[i].raw.start, Fills(ws[i].raw.bytes, z)),
               phases := s.phases[i := Done])
  {
    var w := ws[i];
    var e, f, g := Begin(i, Fills(w.raw.bytes, z)), Fill(i, Fills(w.raw.bytes, z)), Transfer(i);
    var s2 := Step(ws, Step(ws, s, e), f);
    RunTwo(ws, s, e, f);
    assert s2.phases[i].buf == Fills(w.raw.bytes, z);
    RunOne(ws, s2, g);
    RunConcat(ws, s, [e, f], [g]);
    assert DirectWrite(ws, i, z) == [e, f] + [g];
    assert s.phases[i := Ready(Fills(w.raw.bytes, z))][i := s2.phases[i]][i := Done] == s.phases[i := Done];
  }

  /** The owner of a byte is unique. */
  lemma OnlyOwnerPuts<D>(ws: seq<Writer>, size: nat, j: nat, b: nat, events: seq<Event<D>>)
    requires SetUp(ws, size) && j < |ws| && ws[j].Owns(b)
    requires forall k :: 0 <= k < |events| ==> events[k].i != j || !(events[k].Transfer? || events[k].Tear?)
    ensures NonePuts(ws, events, b)
  {
  }

  /** A direct writer whose window reaches into another register overwrites it with the leftover of its raw buffer. */
  lemma {:induction false} DirectWriterOverwrites<D>(ws: seq<Writer>, s: Bus<D>, i: nat, j: nat, b: nat, x: D, y: D)
    requires Start(ws, s) && x != y
    requires i < |ws| && j < |ws| && i != j && !ws[i].locks && ws[i].raw.Contains(b) && ws[j].Owns(b)
    ensures exists events: seq<Event<D>> ::
              Legal(ws, s, events) && !NothingLost(ws, s.memory, events, Run(ws, s, events).memory)
  {
    var z := Other(x, y, s.memory[b]);
    var events := DirectWrite(ws, i, z);
    DirectWriteRuns(ws, s, i, z);
    var s' := Run(ws, s, events);
    assert s'.memory[b] == z;
    OnlyOwnerPuts(ws, |s.memory|, j, b, events);
    OthersDoNotMatter(ws, s.memory, [], events, b, z);
    assert [] + events == events;
    assert Owned(ws, b);
  }

  /** The writer holding the lock puts z into its registers and writes back its window. */
  function LockedWrite<D>(ws: seq<Writer>, i: nat, z: D): seq<Event<D>>
    requires i < |ws|
  {
    [Fill(i, Fills(ws[i].raw.bytes, z)), Transfer(i)]
  }

  lemma {:induction false} LockedWriteRuns<D>(ws: seq<Writer>, s: Bus<D>, i: nat, z: D)
    requires SetUp(ws, |s.memory|) && |s.phases| == |ws|
    requires i < |ws| && s.phases[i].Ready? && |s.phases[i].buf| == ws[i].raw.bytes
    ensures Legal(ws, s, LockedWrite(ws, i, z))
    ensures var s' := Run(ws, s, LockedWrite(ws, i, z));
            forall b :: ws[i].raw.start <= b < ws[i].raw.End() && !ws[i].Owns(b) ==>
              s'.memory[b] == s.phases[i].buf[b - ws[i].raw.start]
  {
    RunTwo(ws, s, Fill(i, Fills(ws[i].raw.bytes, z)), Transfer(i));
  }

  lemma {:induction false} LockAndLoad<D>(ws: seq<Writer>, s: Bus<D>, i: nat)
    requires Start(ws, s) && i < |ws| && ws[i].locks
    ensures Legal(ws, s, [Lock(i), Load(i)])
    ensures Run(ws, s, [Lock(i), Load(i)]) ==
            s.(holder := Some(i), phases := s.phases[i := Ready(s.memory[ws[i].raw.start..ws[i].raw.End()])])
  {
    RunTwo(ws, s, Lock(i), Load(i));
    assert s.phases[i := Locked][i := Ready(s.memory[ws[i].raw.start..ws[i].raw.End()])] ==
           s.phases[i := Ready(s.memory[ws[i].raw.start..ws[i].raw.End()])];
  }

  /** Writer j writes z directly while i is between reading and writing back. */
  function WriteInBetween<D>(ws: seq<Writer>, i: nat, j: nat, z: D): seq<Event<D>>
    requires i < |ws| && j < |ws|
  {
    [Lock(i), Load(i)] + (DirectWrite(ws, j, z) + LockedWrite(ws, i, z))
  }

  lemma {:induction false} WriteInBetweenRuns<D>(ws: seq<Writer>, s: Bus<D>, i: nat, j: nat, z: D)
    requires Start(ws, s) && i < |ws| && j < |ws| && i != j && ws[i].locks && !ws[j].locks
    ensures Legal(ws, s, WriteInBetween(ws, i, j, z))
    ensures var s' := Run(ws, s, WriteInBetween(ws, i, j, z));
            forall b :: ws[i].raw.start <= b < ws[i].raw.End() && !ws[i].Owns(b) ==> s'.memory[b] == s.memory[b]
  {
    LockAndLoad(ws, s, i);
    var s1 := s.(holder := Some(i), phases := s.phases[i := Ready(s.memory[ws[i].raw.start..ws[i].raw.End()])]);
    DirectThenLocked(ws, s1, i, j, z);
    hide Step, Allowed;
    RunConcat(ws, s, [Lock(i), Load(i)], DirectWrite(ws, j, z) + LockedWrite(ws, i, z));
  }

  lemma {:induction false} DirectThenLocked<D>(ws: seq<Writer>, s: Bus<D>, i: nat, j: nat, z: D)
    requires SetUp(ws, |s.memory|) && |s.phases| == |ws|
    requires i < |ws| && j < |ws| && i != j && !ws[j].locks && s.phases[j].Idle?
    requires s.phases[i].Ready? && |s.phases[i].buf| == ws[i].raw.bytes
    ensures Legal(ws, s, DirectWrite(ws, j, z) + LockedWrite(ws, i, z))
    ensures var s' := Run(ws, s, DirectWrite(ws, j, z) + LockedWrite(ws, i, z));
            forall b :: ws[i].raw.start <= b < ws[i].raw.End() && !ws[i].Owns(b) ==>
              s'.memory[b] == s.phases[i].buf[b - ws[i].raw.start]
  {
    DirectWriteRuns(ws, s, j, z);
    var s1 := Run(ws, s, DirectWrite(ws, j, z));
    LockedWriteRuns(ws, s1, i, z);
    RunConcat(ws, s, DirectWrite(ws, j, z), LockedWrite(ws, i, z));
  }

  /** A locking writer whose window reaches into the register of a direct writer writes back what it has read before. */
  lemma {:induction false} LockedWriterRestores<D>(ws: seq<Writer>, s: Bus<D>, i: nat, j: nat, b: nat, x: D, y: D)
    requires Start(ws, s) && x != y
    requires i < |ws| && j < |ws| && i != j && ws[i].locks && !ws[j].locks && ws[i].raw.Contains(b) && ws[j].Owns(b)
    ensures exists events: seq<Event<D>> ::
              Legal(ws, s, events) && !NothingLost(ws, s.memory, events, Run(ws, s, events).memory)
  {
    var z := Other(x, y, s.memory[b]);
    WriteInBetweenRuns(ws, s, i, j, z);
    var events := WriteInBetween(ws, i, j, z);
    InBetweenAsked(ws, s.memory, i, j, b, z, s.memory[b]);
    assert !ws[i].Owns(b);
    assert Run(ws, s, events).memory[b] == s.memory[b] != z;
    assert Owned(ws, b);
  }

  /** Byte b of j's register has to be z after that. */
  lemma {:induction false} InBetweenAsked<D>(ws: seq<Writer>, initial: seq<D>, i: nat, j: nat, b: nat, z: D, d: D)
    requires SetUp(ws, |initial|) && i < |ws| && j < |ws| && i != j && ws[j].Owns(b) && d != z
    ensures b < |initial| && !MayHold(ws, initial, WriteInBetween(ws, i, j, z), b, d)
  {
    var c := Fills(ws[j].raw.bytes, z);
    var es := [Lock(i), Load(i)] + [Begin(j, c)];
    OwnedInside(ws, |initial|, j, b);
    OnlyOwnerPuts(ws, |initial|, j, b, LockedWrite(ws, i, z));
    AskedAndTransferred(ws, initial, es + [Fill(j, c)], j, LockedWrite(ws, i, z), b, d);
    AskedSnoc(es, Fill(j, c), j);
    assert WriteInBetween(ws, i, j, z) == es + [Fill(j, c)] + [Transfer(j)] + LockedWrite(ws, i, z);
  }

  // ----- main theorems

  lemma StartInv<D>(ws: seq<Writer>, s: Bus<D>)
    requires Start(ws, s)
    ensures Inv(ws, s.memory, [], s)
  {
  }

  /** Writers on one device lose no update in any interleaving exactly when they are separated (for a byte type with at
      least two values). */
  lemma {:induction false} NothingLostIffSeparated<D>(ws: seq<Writer>, s: Bus<D>, x: D, y: D)
    requires Start(ws, s) && x != y
    ensures Separated(ws) <==>
              forall events: seq<Event<D>> :: Legal(ws, s, events) ==>
                NothingLost(ws, s.memory, events, Run(ws, s, events).memory)
  {
    if Separated(ws) {
      forall events: seq<Event<D>> | Legal(ws, s, events)
        ensures NothingLost(ws, s.memory, events, Run(ws, s, events).memory)
      {
        SeparatedFromStart(ws, s, events);
      }
    } else {
      var i, j, b :| 0 <= i < |ws| && 0 <= j < |ws| && i != j && ws[i].raw.Contains(b) && ws[j].Owns(b)
                     && !(ws[i].locks && ws[j].locks);
      if ws[i].locks {
        LockedWriterRestores(ws, s, i, j, b, x, y);
      } else {
        DirectWriterOverwrites(ws, s, i, j, b, x, y);
      }
    }
  }

  lemma {:induction false} SeparatedFromStart<D>(ws: seq<Writer>, s: Bus<D>, events: seq<Event<D>>)
    requires Start(ws, s) && Separated(ws) && Legal(ws, s, events)
    ensures Inv(ws, s.memory, events, Run(ws, s, events))
    ensures NothingLost(ws, s.memory, events, Run(ws, s, events).memory)
  {
    StartInv(ws, s);
    SeparatedRunLosesNothing(ws, s.memory, [], s, events);
    assert [] + events == events;
  }

  /** Once the transfer of a separated writer is done, its registers hold what it has been asked for, whatever the
      others do, until it starts another one. */
  lemma {:induction false} WrittenStays<D>(ws: seq<Writer>, s: Bus<D>, es: seq<Event<D>>, j: nat, fs: seq<Event<D>>)
    requires Start(ws, s) && Separated(ws) && j < |ws| && Legal(ws, s, es + [Transfer(j)] + fs)
    requires forall k :: 0 <= k < |fs| ==> fs[k].i != j || !(fs[k].Transfer? || fs[k].Tear?)
    ensures var s' := Run(ws, s, es + [Transfer(j)] + fs);
            forall b: nat :: ws[j].Owns(b) ==>
              && b < |s'.memory| && ws[j].raw.Contains(b)
              && Asked(es, j).Some? && b - ws[j].raw.start < |Asked(es, j).value|
              && s'.memory[b] == Asked(es, j).value[b - ws[j].raw.start]
  {
    hide Legal, Run, MayHold;
    var events := es + [Transfer(j)] + fs;
    SeparatedFromStart(ws, s, events);
    var memory := Run(ws, s, events).memory;
    forall b: nat | ws[j].Owns(b)
      ensures b < |memory| && ws[j].raw.Contains(b) && IsAsked(ws, es, j, b, memory[b])
    {
      OwnedInside(ws, |s.memory|, j, b);
      OnlyOwnerPuts(ws, |s.memory|, j, b, fs);
      assert Owned(ws, b);
      AskedAndTransferred(ws, s.memory, es, j, fs, b, memory[b]);
    }
  }

  // ----- nobody is kept from writing

  /** All that is needed to go on: the lock is held by whom it should, and raw buffers have the size of the window. */
  ghost predicate Sound<D>(ws: seq<Writer>, s: Bus<D>) {
    && SetUp(ws, |s.memory|) && Exclusive(ws, s)
    && forall i :: 0 <= i < |ws| && (s.phases[i].Ready? || s.phases[i].Filled?) ==>
         |s.phases[i].buf| == ws[i].raw.bytes
  }

  /** The steps by which writer i finishes what it is doing. */
  function Rest<D>(p: Phase<D>, i: nat): seq<Event<D>> {
    match p
    case Idle => []
    case Locked => [Abort(i), Finish(i)]
    case Ready(buf) => [Fill(i, buf), Transfer(i)] + [Finish(i)]
    case Filled(_) => [Abort(i), Finish(i)]
    case Done => [Finish(i)]
  }

  lemma FinishRuns<D>(ws: seq<Writer>, s: Bus<D>, i: nat)
    requires Sound(ws, s) && i < |ws| && s.phases[i].Done?
    ensures Allowed(ws, s, Finish(i)) && Finished(ws, s, i, Step(ws, s, Finish(i)))
  {
  }

  ghost predicate Finished<D>(ws: seq<Writer>, s: Bus<D>, i: nat, s': Bus<D>)
    requires i < |s.phases|
  {
    Sound(ws, s') && |s'.memory| == |s.memory| && s'.phases == s.phases[i := Idle]
  }

  lemma {:induction false} RestRuns<D>(ws: seq<Writer>, s: Bus<D>, i: nat)
    requires Sound(ws, s) && i < |ws|
    ensures Legal(ws, s, Rest(s.phases[i], i)) && Finished(ws, s, i, Run(ws, s, Rest(s.phases[i], i)))
  {
    match s.phases[i]
    case Idle =>
      assert s.phases == s.phases[i := Idle];
    case Done =>
      FinishRuns(ws, s, i);
      RunOne(ws, s, Finish(i));
    case Ready(buf) =>
      RunTwo(ws, s, Fill(i, buf), Transfer(i));
      var s2 := Step(ws, Step(ws, s, Fill(i, buf)), Transfer(i));
      FinishRuns(ws, s2, i);
      RunOne(ws, s2, Finish(i));
      RunConcat(ws, s, [Fill(i, buf), Transfer(i)], [Finish(i)]);
    case _ =>
      FinishRuns(ws, Step(ws, s, Abort(i)), i);
      RunTwo(ws, s, Abort(i), Finish(i));
  }

  /** A write which fails releases the lock, and leaves the device as it is; or in the writer's window as torn, if it
      fails during the transfer. */
  lemma {:induction false} FailedWriteReleases<D>(ws: seq<Writer>, s: Bus<D>, i: nat, left: seq<D>)
    requires Sound(ws, s) && i < |ws| && (s.phases[i].Locked? || s.phases[i].Filled?)
    ensures Legal(ws, s, [Abort(i), Finish(i)])
    ensures var s' := Run(ws, s, [Abort(i), Finish(i)]);
            && Finished(ws, s, i, s') && s'.memory == s.memory
            && (ws[i].locks ==> s'.holder.None?) && (!ws[i].locks ==> s'.holder == s.holder)
    ensures s.phases[i].Filled? && Torn(left, s.phases[i].buf, s.memory[ws[i].raw.start..ws[i].raw.End()]) ==>
              && Legal(ws, s, [Tear(i, left), Finish(i)])
              && var s' := Run(ws, s, [Tear(i, left), Finish(i)]);
                 && Finished(ws, s, i, s') && s'.memory == Splice(s.memory, ws[i].raw.start, left)
                 && (ws[i].locks ==> s'.holder.None?) && (!ws[i].locks ==> s'.holder == s.holder)
  {
    FinishRuns(ws, Step(ws, s, Abort(i)), i);
    RunTwo(ws, s, Abort(i), Finish(i));
    if s.phases[i].Filled? && Torn(left, s.phases[i].buf, s.memory[ws[i].raw.start..ws[i].raw.End()]) {
      FinishRuns(ws, Step(ws, s, Tear(i, left)), i);
      RunTwo(ws, s, Tear(i, left), Finish(i));
    }
  }

  /** From every state all writers which are not idle can finish, one after the other. */
  lemma {:induction false} AllFinish<D>(ws: seq<Writer>, s: Bus<D>, n: nat) returns (events: seq<Event<D>>)
    requires Sound(ws, s) && n <= |ws| && forall k :: n <= k < |ws| ==> s.phases[k].Idle?
    ensures Legal(ws, s, events) && Start(ws, Run(ws, s, events)) && |Run(ws, s, events).memory| == |s.memory|
    decreases n
  {
    if n == 0 {
      events := [];
    } else {
      var es := Rest(s.phases[n - 1], n - 1);
      RestRuns(ws, s, n - 1);
      var s' := Run(ws, s, es);
      var fs := AllFinish(ws, s', n - 1);
      RunConcat(ws, s, es, fs);
      events := es + fs;
    }
  }

  /** A complete write of writer i. */
  function CompleteWrite<D>(ws: seq<Writer>, i: nat, leftover: seq<D>, content: seq<D>): seq<Event<D>>
    requires i < |ws|
  {
    (if ws[i].locks then [Lock(i), Load(i)] else [Begin(i, leftover)])
      + ([Fill(i, content), Transfer(i)] + [Finish(i)])
  }

  /** The registers of writer i hold the content. */
  ghost predicate HasWritten<D>(ws: seq<Writer>, i: nat, content: seq<D>, memory: seq<D>)
    requires i < |ws| && |content| == ws[i].raw.bytes
  {
    forall b: nat :: b < |memory| && ws[i].Owns(b) ==>
      ws[i].raw.Contains(b) && memory[b] == content[b - ws[i].raw.start]
  }

  /** If all writers are idle, each of them can write: its registers then hold the content. A locking writer changes
      nothing else, a direct one fills the rest of its window with what has been in its raw buffer. */
  lemma {:induction false} WriteCompletes<D>(ws: seq<Writer>, s: Bus<D>, i: nat, leftover: seq<D>, content: seq<D>)
    requires Start(ws, s) && i < |ws| && |leftover| == |content| == ws[i].raw.bytes
    ensures Legal(ws, s, CompleteWrite(ws, i, leftover, content))
    ensures var s' := Run(ws, s, CompleteWrite(ws, i, leftover, content));
            && Start(ws, s') && |s'.memory| == |s.memory| && HasWritten(ws, i, content, s'.memory)
            && forall b: nat :: b < |s.memory| && !ws[i].Owns(b) ==>
                 s'.memory[b] == if ws[i].raw.Contains(b) && !ws[i].locks then leftover[b - ws[i].raw.start]
                                 else s.memory[b]
  {
    var w := ws[i];
    var buf := if w.locks then s.memory[w.raw.start..w.raw.End()] else leftover;
    var s1 := s.(holder := if w.locks then Some(i) else None, phases := s.phases[i := Ready(buf)]);
    if w.locks { LockAndLoad(ws, s, i); } else { RunOne(ws, s, Begin(i, leftover)); }
    FillTransferFinish(ws, s1, i, content);
    PutFilled(ws, s1, i, content);
    hide Step, Allowed;
    RunConcat(ws, s, if w.locks then [Lock(i), Load(i)] else [Begin(i, leftover)],
      [Fill(i, content), Transfer(i)] + [Finish(i)]);
  }

  lemma {:induction false} FillTransferFinish<D>(ws: seq<Writer>, s: Bus<D>, i: nat, content: seq<D>)
    requires Sound(ws, s) && i < |ws| && s.phases[i].Ready? && |s.phases[i].buf| == |content| == ws[i].raw.bytes
    requires forall k :: 0 <= k < |ws| && k != i ==> s.phases[k].Idle?
    ensures var es := [Fill(i, content), Transfer(i)] + [Finish(i)];
            && Legal(ws, s, es) && Start(ws, Run(ws, s, es))
            && Run(ws, s, es).memory == Put(s, i, ws[i], FilledIn(ws[i], s.phases[i].buf, content)).memory
  {
    FillAndTransfer(ws, s, i, content);
    var s3 := Put(s, i, ws[i], FilledIn(ws[i], s.phases[i].buf, content));
    FinishRuns(ws, s3, i);
    RunOne(ws, s3, Finish(i));
    RunConcat(ws, s, [Fill(i, content), Transfer(i)], [Finish(i)]);
  }

  /** What the raw buffer with the content filled in makes of the device. */
  lemma PutFilled<D>(ws: seq<Writer>, s: Bus<D>, i: nat, content: seq<D>)
    requires Sound(ws, s) && i < |ws| && s.phases[i].Ready? && |content| == ws[i].raw.bytes
    requires ws[i].locks ==> s.phases[i].buf == s.memory[ws[i].raw.start..ws[i].raw.End()]
    ensures var memory := Put(s, i, ws[i], FilledIn(ws[i], s.phases[i].buf, content)).memory;
            && |memory| == |s.memory| && HasWritten(ws, i, content, memory)
            && forall b: nat :: b < |s.memory| && !ws[i].Owns(b) ==>
                 memory[b] == if ws[i].raw.Contains(b) && !ws[i].locks then s.phases[i].buf[b - ws[i].raw.start]
                              else s.memory[b]
  {
    forall b: nat | ws[i].Owns(b)
      ensures ws[i].raw.Contains(b)
    {
      OwnedInside(ws, |s.memory|, i, b);
    }
  }

  lemma {:induction false} FillAndTransfer<D>(ws: seq<Writer>, s: Bus<D>, i: nat, content: seq<D>)
    requires SetUp(ws, |s.memory|) && |s.phases| == |ws| && i < |ws|
    requires s.phases[i].Ready? && |s.phases[i].buf| == |content| == ws[i].raw.bytes
    ensures Legal(ws, s, [Fill(i, content), Transfer(i)])
    ensures Run(ws, s, [Fill(i, content), Transfer(i)]) == Put(s, i, ws[i], FilledIn(ws[i], s.phases[i].buf, content))
  {
    RunTwo(ws, s, Fill(i, content), Transfer(i));
    assert s.phases[i := Filled(FilledIn(ws[i], s.phases[i].buf, content))][i := Done] == s.phases[i := Done];
  }

  /** No run leads into a dead end: afterwards the writers can still finish, and each register can be written. */
  lemma {:induction false} WritableAfterwards<D>(ws: seq<Writer>, s: Bus<D>, done: seq<Event<D>>, i: nat,
                                                 leftover: seq<D>, content: seq<D>)
    requires Start(ws, s) && Legal(ws, s, done)
    requires i < |ws| && |leftover| == |content| == ws[i].raw.bytes
    ensures exists events: seq<Event<D>> ::
              Legal(ws, s, done + events) && HasWritten(ws, i, content, Run(ws, s, done + events).memory)
  {
    RunSound(ws, s, done);
    hide Step, Allowed, Sound, Start, HasWritten, CompleteWrite;
    var events := FinishAndWrite(ws, Run(ws, s, done), i, leftover, content);
    RunConcat(ws, s, done, events);
  }

  lemma FinishAndWrite<D>(ws: seq<Writer>, s: Bus<D>, i: nat, leftover: seq<D>, content: seq<D>)
    returns (events: seq<Event<D>>)
    requires Sound(ws, s) && i < |ws| && |leftover| == |content| == ws[i].raw.bytes
    ensures Legal(ws, s, events) && HasWritten(ws, i, content, Run(ws, s, events).memory)
  {
    var es := AllFinish(ws, s, |ws|);
    hide Step, Allowed, Sound, Start, HasWritten, CompleteWrite;
    WriteCompletes(ws, Run(ws, s, es), i, leftover, content);
    RunConcat(ws, s, es, CompleteWrite(ws, i, leftover, content));
    events := es + CompleteWrite(ws, i, leftover, content);
  }

  lemma StepSound<D>(ws: seq<Writer>, s: Bus<D>, e: Event<D>)
    requires Sound(ws, s) && Allowed(ws, s, e)
    ensures Sound(ws, Step(ws, s, e))
  {
  }

  lemma {:induction false} RunSound<D>(ws: seq<Writer>, s: Bus<D>, events: seq<Event<D>>)
    requires Sound(ws, s) && Legal(ws, s, events)
    ensures Sound(ws, Run(ws, s, events))
    decreases |events|
  {
    if events != [] {
      StepSound(ws, s, events[0]);
      RunSound(ws, Step(ws, s, events[0]), events[1..]);
    }
  }

  // ----- elements

  /** Unaligned writes lose nothing: for disjoint non-empty registers, as long as nothing has been merged, in any
      interleaving every byte of a register is what its owner has been asked for. After merges that is so exactly if no
      merged window contains a byte of a foreign register. */
  lemma {:induction false} ElementsLoseNothingIff<D>(ws: seq<Writer>, ms: seq<Merge>, a: nat, s: Bus<D>, x: D, y: D)
    requires a > 0 && Start(ws, s) && Elements(ws, ms, a) && x != y
    ensures !MergedOverForeign(ws, ms) <==>
              forall events: seq<Event<D>> :: Legal(ws, s, events) ==>
                NothingLost(ws, s.memory, events, Run(ws, s, events).memory)
  {
    ElementsSeparatedIff(ws, ms, a, |s.memory|);
    NothingLostIffSeparated(ws, s, x, y);
  }

  lemma {:induction false} UnmergedWritersLoseNothing<D>(ws: seq<Writer>, ms: seq<Merge>, a: nat, s: Bus<D>,
                                                         events: seq<Event<D>>)
    requires a > 0 && Start(ws, s) && Elements(ws, ms, a) && Legal(ws, s, events)
    requires forall i :: 0 <= i < |ms| ==> ms[i].Request?
    ensures NothingLost(ws, s.memory, events, Run(ws, s, events).memory)
  {
    ElementsSeparatedIff(ws, ms, a, |s.memory|);
    SeparatedFromStart(ws, s, events);
  }

  /** An input for which updates get lost: with a transfer alignment of 4, registers at bytes 0-1 and 4-5 are merged
      into one element, which then overwrites the foreign register at bytes 2-3. */
  lemma {:induction false} MergeLosesUpdates(ms: seq<Merge>, ws: seq<Writer>, s: Bus<int>)
    requires ms == [Join(Request(Window(0, 2)), Request(Window(4, 2))), Request(Window(2, 2))]
    requires ws == [ElementOf(ms[0], 4), ElementOf(ms[1], 4)]
    requires s == Bus([0, 0, 0, 0, 0, 0, 0, 0], None, [Idle, Idle])
    ensures Elements(ws, ms, 4) && Start(ws, s)
    ensures exists events: seq<Event<int>> ::
              Legal(ws, s, events) && !NothingLost(ws, s.memory, events, Run(ws, s, events).memory)
  {
    hide ElementOf, Legal, Run, NothingLost, Padded;
    NeighbourElements(Window(0, 2), Window(4, 2), Window(2, 2));
    assert ws == Neighbours();
    NeighboursSetUp();
    assert ws[1].own[0].Contains(2);
    assert ws[0].raw.Contains(2) && ws[1].Owns(2);
    assert MergedOverForeign(ws, ms);
    ElementsLoseNothingIff(ws, ms, 4, s, 0, 1);
  }

  function Neighbours(): seq<Writer> {
    [Writer([Window(0, 2), Window(4, 2)], Window(0, 8), false), Writer([Window(2, 2)], Window(0, 4), true)]
  }

  lemma NeighboursSetUp()
    ensures SetUp(Neighbours(), 8)
  {
  }

  lemma PaddedIs(w: Window, a: nat, p: nat, q: nat)
    requires a > 0 && w.start % a == p && w.End() % a == q
    ensures Padded(w, a) == Window(w.start - p, w.bytes + p + if q == 0 then 0 else a - q)
  {
    assert Floor(w.start, a) == w.start - p;
    assert Ceil(w.End(), a) == if q == 0 then w.End() else w.End() - q + a;
    hide Floor, Ceil;
  }

  lemma {:induction false} NeighbourElements(l: Window, r: Window, w: Window)
    requires l == Window(0, 2) && r == Window(4, 2) && w == Window(2, 2)
    ensures Join(Request(l), Request(r)).Touches(4)
    ensures ElementOf(Join(Request(l), Request(r)), 4) == Writer([l, r], Window(0, 8), false)
    ensures ElementOf(Request(w), 4) == Writer([w], Window(0, 4), true)
  {
    hide Floor, Ceil, Padded;
    PaddedIs(l, 4, 0, 2);
    PaddedIs(r, 4, 0, 2);
    PaddedIs(w, 4, 2, 0);
    PaddedIs(Window(0, 8), 4, 0, 0);
    assert Merged(Window(0, 4), Window(4, 4)) == Window(0, 8) && Touching(Window(0, 4), Window(4, 4));
  }
}

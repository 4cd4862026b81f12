/** Vocabulary shared by the transfer-element models. */
module Samples {

  datatype Option<+T> = None | Some(value: T)

  datatype Validity = Ok | Faulty

  /** The content of a buffer together with its meta data. Version 0 stands for VersionNumber(nullptr), which is smaller
      than every generated version number. */
  datatype Sample<D> = Sample(data: D, version: nat, validity: Validity)

  /** Versions never decrease along the sequence. */
  ghost predicate NonDecreasing<D>(s: seq<Sample<D>>) {
    forall i, j :: 0 <= i < j < |s| ==> s[i].version <= s[j].version
  }
}

/**
 The history ring of one element of a historized consistency group: the target accessor's own buffer plus the
 `histLen` historized buffers behind it. A step of the ring is one received update.
 */
module HistoryRing {
  import opened Samples

  datatype Ring<D> = Ring(target: Sample<D>, history: seq<Sample<D>>)

  /** HistorizedMatcher::updateHistory: the target's content moves into history slot 0. The older slots move back by
      one unless slot 0 has been marked invalid, in which case slot 0 is reused. Only the buffers are exchanged, so the
      target keeps its labels and receives the buffer which drops out. */
  function Rotate<D>(r: Ring<D>): Ring<D> {
    var n := |r.history|;
    if n == 0 then r
    else if r.history[0].version > 0 then
      Ring(r.target.(data := r.history[n - 1].data), [r.target] + r.history[..n - 1])
    else
      Ring(r.target.(data := r.history[0].data), r.history[0 := r.target])
  }

  /** The duplicate check of HistorizedMatcher::checkUpdate. */
  function DropDuplicate<D>(r: Ring<D>): Ring<D> {
    if |r.history| > 0 && r.history[0].version == r.target.version then
      r.(history := r.history[0 := r.history[0].(version := 0)])
    else r
  }

  /** Everything one received update does to the ring: rotate, overwrite the target, drop a duplicate. */
  function Receive<D>(r: Ring<D>, u: Sample<D>): Ring<D> {
    DropDuplicate(Rotate(r).(target := u))
  }

  /** All slots in search order: the target first, then the history from newest to oldest. */
  function Slots<D>(r: Ring<D>): seq<Sample<D>> {
    [r.target] + r.history
  }

  function Buffers<D>(r: Ring<D>): seq<D> {
    seq(|r.history| + 1, i requires 0 <= i < |Slots(r)| => Slots(r)[i].data)
  }

  /** Some slot carries version v. */
  ghost predicate Holds<D>(r: Ring<D>, v: nat) {
    exists k :: 0 <= k < |Slots(r)| && Slots(r)[k].version == v
  }

  /** The distinct non-null versions of a log with non-decreasing versions, in ascending order. */
  function Distinct<D>(log: seq<Sample<D>>): (d: seq<nat>)
    ensures |d| <= |log|
  {
    if log == [] then []
    else
      var d := Distinct(log[..|log| - 1]);
      var v := log[|log| - 1].version;
      if v == 0 || (d != [] && d[|d| - 1] == v) then d else d + [v]
  }

  /** The k-th most recent version, null if there are not that many. */
  function NthRecent(d: seq<nat>, k: nat): nat {
    if k < |d| then d[|d| - 1 - k] else 0
  }

  /** The last received update carries the same version as the one before. */
  predicate EndsWithDuplicate<D>(log: seq<Sample<D>>) {
    |log| >= 2 && log[|log| - 1].version == log[|log| - 2].version
  }

  /** Number of distinct versions a ring with n history slots remembers: one less while slot 0 is invalid. */
  function Capacity<D>(n: nat, log: seq<Sample<D>>): nat {
    if n > 0 && EndsWithDuplicate(log) then n else n + 1
  }

  /** Version v is among the most recent distinct versions a ring with n history slots remembers. */
  ghost predicate Remembers<D>(log: seq<Sample<D>>, n: nat, v: nat) {
    exists k :: 0 <= k < Capacity(n, log) && NthRecent(Distinct(log), k) == v
  }

  /** Slot by slot, the labels are the versions d, the last one first. Slot 0 is invalid, and skipped, in case of a
      `duplicate`. */
  ghost predicate Labelled<D>(r: Ring<D>, d: seq<nat>, duplicate: bool) {
    var h := r.history;
    && r.target.version == NthRecent(d, 0)
    && if duplicate then
         && (|h| > 0 ==> h[0].version == 0)
         && forall k :: 1 <= k < |h| ==> h[k].version == NthRecent(d, k)
       else
         forall k :: 0 <= k < |h| ==> h[k].version == NthRecent(d, k + 1)
  }

  /** The labels are the most recent distinct versions, newest first; slot 0 is invalid exactly while the last update
      was a duplicate. */
  ghost predicate RingShape<D>(r: Ring<D>, log: seq<Sample<D>>) {
    Labelled(r, Distinct(log), EndsWithDuplicate(log))
  }

  ghost predicate StrictlyAscending(d: seq<nat>) {
    forall i, j :: 0 <= i < j < |d| ==> d[i] < d[j]
  }

  lemma {:induction false} DistinctAscends<D>(log: seq<Sample<D>>)
    requires NonDecreasing(log)
    ensures StrictlyAscending(Distinct(log))
    ensures forall i :: 0 <= i < |Distinct(log)| ==> 0 < Distinct(log)[i] <= log[|log| - 1].version
    ensures log != [] ==> NthRecent(Distinct(log), 0) == log[|log| - 1].version
  {
    if log != [] {
      var init := log[..|log| - 1];
      DistinctAscends(init);
      if init != [] {
        assert init[|init| - 1].version <= log[|log| - 1].version;
      }
    }
  }

  /** Distinct keeps exactly the non-null versions of the log. */
  lemma {:induction false} DistinctComplete<D>(log: seq<Sample<D>>, v: nat)
    requires v > 0
    ensures v in Distinct(log) <==> exists i :: 0 <= i < |log| && log[i].version == v
  {
    if log != [] {
      var init := log[..|log| - 1];
      DistinctComplete(init, v);
      assert log == init + [log[|log| - 1]];
      if i :| 0 <= i < |log| && log[i].version == v {
        if i < |init| { assert init[i].version == v; }
      }
      if i :| 0 <= i < |init| && init[i].version == v {
        assert log[i].version == v;
      }
    }
  }

  /** A freshly set up ring (setupHistory): target labelled with the accessor's version, empty history. */
  ghost predicate Fresh<D>(r: Ring<D>, initial: Sample<D>) {
    && r.target.version == initial.version
    && forall k :: 0 <= k < |r.history| ==> r.history[k].version == 0
  }

  lemma FreshShape<D>(r: Ring<D>, initial: Sample<D>)
    requires Fresh(r, initial)
    ensures RingShape(r, [initial])
  {
    assert [initial][..0] == [];
    assert Distinct<D>([]) == [];
  }

  lemma FreshHolds<D>(r: Ring<D>, initial: Sample<D>, v: nat)
    requires Fresh(r, initial) && v > 0 && Holds(r, v)
    ensures v == initial.version
  {
    assert forall k :: 0 < k < |Slots(r)| ==> Slots(r)[k] == r.history[k - 1];
  }

  /** History ring shape: receiving any update that does not go back in version keeps the shape. */
  lemma ReceiveKeepsShape<D>(r: Ring<D>, log: seq<Sample<D>>, u: Sample<D>)
    requires log != [] && NonDecreasing(log + [u]) && u.version > 0
    requires RingShape(r, log)
    ensures RingShape(Receive(r, u), log + [u])
    ensures |Receive(r, u).history| == |r.history|
  {
    NonDecreasingPrefix(log, u);
    DistinctAscends(log);
    DistinctSnoc(log, u);
    if u.version == r.target.version {
      ReceiveDuplicate(r, Distinct(log), EndsWithDuplicate(log), u);
    } else {
      ReceiveNewVersion(r, Distinct(log), EndsWithDuplicate(log), u);
    }
  }

  lemma {:induction false} DistinctSnoc<D>(log: seq<Sample<D>>, u: Sample<D>)
    requires log != [] && NonDecreasing(log) && u.version > 0
    ensures log[|log| - 1].version == u.version ==> Distinct(log + [u]) == Distinct(log)
    ensures log[|log| - 1].version < u.version ==> Distinct(log + [u]) == Distinct(log) + [u.version]
    ensures EndsWithDuplicate(log + [u]) <==> log[|log| - 1].version == u.version
  {
    assert (log + [u])[..|log|] == log;
    DistinctAscends(log);
  }

  ghost predicate NonNull(d: seq<nat>) {
    forall k :: 0 <= k < |d| ==> d[k] > 0
  }

  lemma ReceiveDuplicate<D>(r: Ring<D>, d: seq<nat>, duplicate: bool, u: Sample<D>)
    requires Labelled(r, d, duplicate) && NonNull(d) && u.version > 0 && u.version == r.target.version
    ensures Labelled(Receive(r, u), d, true)
  {
    var h, h' := r.history, Receive(r, u).history;
    if h != [] && h[0].version == 0 && !duplicate { NothingBehindEmptySlot(r, d, duplicate); }
    forall k | 0 <= k < |h'|
      ensures h'[k].version == if k == 0 then 0 else NthRecent(d, k)
    {
      if k > 0 && h[0].version > 0 {
        assert h'[k] == h[k - 1];
      } else if k > 0 {
        assert h'[k] == h[k];
      }
    }
  }

  /** A null label that no duplicate has caused is a slot not yet used, and so are all behind it. */
  lemma NothingBehindEmptySlot<D>(r: Ring<D>, d: seq<nat>, duplicate: bool)
    requires Labelled(r, d, duplicate) && NonNull(d) && r.history != [] && r.history[0].version == 0 && !duplicate
    ensures |d| <= 1
  {
    assert NthRecent(d, 1) == 0;
  }

  lemma ReceiveNewVersion<D>(r: Ring<D>, d: seq<nat>, duplicate: bool, u: Sample<D>)
    requires Labelled(r, d, duplicate) && NonNull(d) && u.version > r.target.version
    ensures Labelled(Receive(r, u), d + [u.version], false)
  {
    var h, h' := r.history, Receive(r, u).history;
    var d' := d + [u.version];
    if h != [] && h[0].version == 0 && !duplicate { NothingBehindEmptySlot(r, d, duplicate); }
    forall k | 0 <= k < |h'|
      ensures h'[k].version == NthRecent(d', k + 1)
    {
      assert NthRecent(d', k + 1) == NthRecent(d, k);
      if k == 0 {
        assert h'[0].version == r.target.version;
      } else if h[0].version > 0 {
        assert h'[k] == h[k - 1];
      } else {
        assert h'[k] == h[k];
      }
    }
  }

  lemma NonDecreasingPrefix<D>(log: seq<Sample<D>>, u: Sample<D>)
    requires NonDecreasing(log + [u])
    ensures NonDecreasing(log)
    ensures log != [] ==> log[|log| - 1].version <= u.version
  {
    assert forall i :: 0 <= i < |log| ==> (log + [u])[i] == log[i];
    assert (log + [u])[|log|] == u;
  }

  /** What the shape means for a search: the ring holds v exactly when v is among the `Capacity` most recent distinct
      versions. */
  lemma HoldsIffRecent<D>(r: Ring<D>, log: seq<Sample<D>>, v: nat)
    requires RingShape(r, log) && v > 0
    ensures Holds(r, v) <==> Remembers(log, |r.history|, v)
  {
    var d, duplicate, n := Distinct(log), EndsWithDuplicate(log), |r.history|;
    if Holds(r, v) {
      var k :| 0 <= k < |Slots(r)| && Slots(r)[k].version == v;
      SlotIsRecent(r, d, duplicate, k);
    }
    if Remembers(log, n, v) {
      var k :| 0 <= k < Capacity(n, log) && NthRecent(d, k) == v;
      RecentHasSlot(r, d, duplicate, k);
    }
  }

  lemma SlotIsRecent<D>(r: Ring<D>, d: seq<nat>, duplicate: bool, k: nat)
    requires Labelled(r, d, duplicate) && k < |Slots(r)| && Slots(r)[k].version > 0
    ensures exists j :: 0 <= j <= (if duplicate && |r.history| > 0 then |r.history| - 1 else |r.history|) &&
              NthRecent(d, j) == Slots(r)[k].version
  {
    if k > 0 { assert Slots(r)[k] == r.history[k - 1]; }
    if k > 0 && duplicate {
      assert NthRecent(d, k - 1) == Slots(r)[k].version;
    } else {
      assert NthRecent(d, k) == Slots(r)[k].version;
    }
  }

  lemma RecentHasSlot<D>(r: Ring<D>, d: seq<nat>, duplicate: bool, k: nat)
    requires Labelled(r, d, duplicate) && k <= (if duplicate && |r.history| > 0 then |r.history| - 1 else |r.history|)
    ensures Holds(r, NthRecent(d, k))
  {
    var j := if k > 0 && duplicate then k + 1 else k;
    if k > 0 { assert Slots(r)[j] == r.history[j - 1]; }
    assert Slots(r)[j].version == NthRecent(d, k);
  }

  ghost predicate StrictlyIncreasing<D>(log: seq<Sample<D>>) {
    forall i, j :: 0 <= i < j < |log| ==> log[i].version < log[j].version
  }

  /** With strictly increasing versions every logged version is distinct. */
  lemma {:induction false} DistinctOfStrict<D>(log: seq<Sample<D>>, p: nat)
    requires StrictlyIncreasing(log) && p < |log| && log[p].version > 0
    ensures NthRecent(Distinct(log), |log| - 1 - p) == log[p].version
  {
    var init := log[..|log| - 1];
    if p < |log| - 1 {
      DistinctOfStrict(init, p);
      assert log[p].version < log[|log| - 1].version;
      DistinctAscends(init);
      assert init[|init| - 1].version < log[|log| - 1].version;
    }
  }

  /** With strictly increasing versions, a ring with n history slots still holds a version if at most n newer ones have
      arrived since. */
  lemma HeldWhileRecent<D>(r: Ring<D>, log: seq<Sample<D>>, p: nat)
    requires RingShape(r, log) && StrictlyIncreasing(log)
    requires p < |log| && log[p].version > 0
    requires |log| - 1 - p <= |r.history|
    ensures Holds(r, log[p].version)
  {
    DistinctOfStrict(log, p);
    HoldsIffRecent(r, log, log[p].version);
  }

  /** The buffers are only permuted, none is copied or lost. */
  lemma RotatePermutes<D>(r: Ring<D>)
    ensures multiset(Buffers(Rotate(r))) == multiset(Buffers(r))
    ensures Rotate(r).target.version == r.target.version
  {
    var n := |r.history|;
    var b := Buffers(r);
    if n > 0 && r.history[0].version > 0 {
      assert Buffers(Rotate(r)) == [b[n]] + b[..n];
      assert b == b[..n] + [b[n]];
    } else if n > 0 {
      assert Buffers(Rotate(r)) == [b[1], b[0]] + b[2..];
      assert b == [b[0], b[1]] + b[2..];
    }
  }
}

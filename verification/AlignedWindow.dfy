/**
 The byte windows of NumericAddressedLowLevelTransferElement: padding of a requested address range to the transfer
 alignment, and merging of windows by replaceTransferElement.
 */
module AlignedWindow {

  /** The bytes start, ..., start + bytes - 1 of one bar. */
  datatype Window = Window(start: nat, bytes: nat) {
    function End(): nat { start + bytes }

    predicate Contains(b: nat) { start <= b < End() }

    /** Every byte of w lies in this window. */
    predicate Covers(w: Window) { start <= w.start && w.End() <= End() }

    predicate IsAligned(a: nat)
      requires a > 0
    {
      start % a == 0 && bytes % a == 0
    }
  }

  // ----- arithmetic of one alignment

  function Floor(x: nat, a: nat): nat
    requires a > 0
  {
    x - x % a
  }

  function Ceil(x: nat, a: nat): nat
    requires a > 0
  {
    if x % a == 0 then x else x - x % a + a
  }

  lemma MultipleIsAligned(k: nat, a: nat)
    requires a > 0
    ensures (a * k) % a == 0
    decreases k
  {
    if k > 0 {
      MultipleIsAligned(k - 1, a);
      assert a * k == a * (k - 1) + a;
      AddPeriod(a * (k - 1), a);
    }
  }

  lemma AddPeriod(x: nat, a: nat)
    requires a > 0
    ensures (x + a) % a == x % a
  {
    assert (x + a) / a == x / a + 1 by {
      var q, r := x / a, x % a;
      assert x + a == a * (q + 1) + r;
      QuotientUnique(x + a, a, q + 1, r);
    }
  }

  /** Different multiples of a are at least a apart. */
  lemma MultiplesApart(a: nat, p: nat, q: nat)
    ensures p < q ==> a * p + a <= a * q
  {
    if p + 1 < q {
      MultiplesApart(a, p, q - 1);
      assert a * q == a * (q - 1) + a;
    } else if p + 1 == q {
      assert a * q == a * p + a;
    }
  }

  lemma QuotientUnique(x: nat, a: nat, q: nat, r: nat)
    requires a > 0 && x == a * q + r && r < a
    ensures x / a == q && x % a == r
  {
    var q', r' := x / a, x % a;
    assert x == a * q' + r' && r' < a;
    MultiplesApart(a, q, q');
    MultiplesApart(a, q', q);
  }

  lemma SumOfAligned(x: nat, y: nat, a: nat)
    requires a > 0 && x % a == 0 && y % a == 0
    ensures (x + y) % a == 0
    ensures x >= y ==> (x - y) % a == 0
  {
    var p, q := x / a, y / a;
    assert x == a * p && y == a * q;
    assert x + y == a * (p + q);
    MultipleIsAligned(p + q, a);
    if x >= y {
      MultiplesApart(a, p, q);
      assert x - y == a * (p - q);
      MultipleIsAligned(p - q, a);
    }
  }

  lemma FloorAligned(x: nat, a: nat)
    requires a > 0
    ensures Floor(x, a) % a == 0 && Ceil(x, a) % a == 0
    ensures Floor(x, a) <= x <= Ceil(x, a)
  {
    assert Floor(x, a) == a * (x / a);
    MultipleIsAligned(x / a, a);
    if x % a != 0 { AddPeriod(Floor(x, a), a); }
  }

  /** Aligned points below x are below Floor(x), those above x are above Ceil(x). */
  lemma NoAlignedBetween(x: nat, p: nat, a: nat)
    requires a > 0 && p % a == 0
    ensures p <= x ==> p <= Floor(x, a)
    ensures x <= p ==> Ceil(x, a) <= p
  {
    var k, q := p / a, x / a;
    assert p == a * k && x == a * q + x % a;
    MultiplesApart(a, q, k);
    MultiplesApart(a, k, q);
  }

  // ----- padding

  /** The window setAddress arrives at for a requested range. */
  function Padded(w: Window, a: nat): Window
    requires a > 0
  {
    Window(Floor(w.start, a), Ceil(w.End(), a) - Floor(w.start, a))
  }

  /** setAddress pads to the smallest aligned window which covers the request. */
  lemma PaddedIsSmallest(w: Window, a: nat)
    requires a > 0
    ensures Padded(w, a).IsAligned(a) && Padded(w, a).Covers(w)
    ensures forall v: Window :: v.IsAligned(a) && v.Covers(w) ==> v.Covers(Padded(w, a))
  {
    FloorAligned(w.start, a);
    FloorAligned(w.End(), a);
    SumOfAligned(Ceil(w.End(), a), Floor(w.start, a), a);
    forall v: Window | v.IsAligned(a) && v.Covers(w) ensures v.Covers(Padded(w, a)) {
      SumOfAligned(v.start, v.bytes, a);
      NoAlignedBetween(w.start, v.start, a);
      NoAlignedBetween(w.End(), v.End(), a);
    }
  }

  /** Padding an aligned window changes nothing. */
  lemma PaddedAligned(w: Window, a: nat)
    requires a > 0 && w.IsAligned(a)
    ensures Padded(w, a) == w
  {
    SumOfAligned(w.start, w.bytes, a);
  }

  /** Every block of a padded window contains a byte of the non-empty request, so an aligned range which does not meet
      the request does not meet its padded window either. */
  lemma AlignedAvoidsPadded(w: Window, v: Window, a: nat)
    requires a > 0 && w.bytes > 0 && v.IsAligned(a)
    requires forall b :: !(w.Contains(b) && v.Contains(b))
    ensures forall b :: !(Padded(w, a).Contains(b) && v.Contains(b))
  {
    if v.bytes > 0 {
      SumOfAligned(v.start, v.bytes, a);
      if v.start <= w.start {
        assert !v.Contains(w.start) by { assert w.Contains(w.start); }
        NoAlignedBetween(w.start, v.End(), a);
      } else {
        assert !w.Contains(v.start) by { assert v.Contains(v.start); }
        NoAlignedBetween(w.End(), v.start, a);
      }
    }
  }

  // ----- merging

  /** The address part of isMergeable: adjacent or overlapping. */
  predicate Touching(w: Window, v: Window) {
    !(w.End() < v.start) && !(w.start > v.End())
  }

  /** The window replaceTransferElement passes to changeAddress. */
  function Merged(w: Window, v: Window): Window {
    var start := if w.start < v.start then w.start else v.start;
    var end := if w.End() > v.End() then w.End() else v.End();
    Window(start, end - start)
  }

  /** Windows touch exactly if there is no byte between them, that is if the merged window contains no other bytes. */
  lemma TouchingIffNoGap(w: Window, v: Window)
    ensures Touching(w, v) <==> forall b :: Merged(w, v).Contains(b) ==> w.Contains(b) || v.Contains(b)
  {
    if w.End() < v.start {
      assert Merged(w, v).Contains(w.End()) && !w.Contains(w.End()) && !v.Contains(w.End());
    } else if v.End() < w.start {
      assert Merged(w, v).Contains(v.End()) && !w.Contains(v.End()) && !v.Contains(v.End());
    }
  }

  /** Merging touching aligned windows gives exactly their union, which is aligned again and needs no padding. */
  lemma MergedIsUnion(w: Window, v: Window, a: nat)
    requires a > 0 && w.IsAligned(a) && v.IsAligned(a) && Touching(w, v)
    ensures Merged(w, v).IsAligned(a) && Padded(Merged(w, v), a) == Merged(w, v)
    ensures forall b :: Merged(w, v).Contains(b) <==> w.Contains(b) || v.Contains(b)
    ensures Merged(w, v).Covers(w) && Merged(w, v).Covers(v)
  {
    SumOfAligned(w.start, w.bytes, a);
    SumOfAligned(v.start, v.bytes, a);
    var m := Merged(w, v);
    SumOfAligned(m.End(), m.start, a);
    PaddedAligned(m, a);
  }

  /** How an element has come about: set up for one request, or by merging two elements, either of which may have been
      merged before. */
  datatype Merge =
    | Request(w: Window)
    | Join(left: Merge, right: Merge)
  {
    function Window(a: nat): Window
      requires a > 0
    {
      match this
      case Request(w) => Padded(w, a)
      case Join(l, r) => Merged(l.Window(a), r.Window(a))
    }

    /** Elements are merged only if their windows touch. */
    predicate Touches(a: nat)
      requires a > 0
    {
      Join? ==> left.Touches(a) && right.Touches(a) && Touching(left.Window(a), right.Window(a))
    }

    /** The requests served by the element. */
    function Requests(): seq<Window> {
      match this
      case Request(w) => [w]
      case Join(l, r) => l.Requests() + r.Requests()
    }

    /** Some request has byte b in its padded window. */
    ghost predicate InSomePadded(a: nat, b: nat)
      requires a > 0
    {
      exists w :: w in Requests() && Padded(w, a).Contains(b)
    }
  }

  /** Window merging, in any order and grouping: the window is aligned and needs no padding, it is exactly the union of
      the padded windows of all requests, and it covers every request. */
  lemma {:induction false} MergeIsUnion(m: Merge, a: nat)
    requires a > 0 && m.Touches(a)
    ensures m.Window(a).IsAligned(a) && Padded(m.Window(a), a) == m.Window(a)
    ensures forall b :: m.Window(a).Contains(b) <==> m.InSomePadded(a, b)
    ensures forall w :: w in m.Requests() ==> m.Window(a).Covers(w)
  {
    match m
    case Request(w) =>
      PaddedIsSmallest(w, a);
      PaddedAligned(Padded(w, a), a);
      assert w in m.Requests();
    case Join(l, r) =>
      MergeIsUnion(l, a);
      MergeIsUnion(r, a);
      MergedIsUnion(l.Window(a), r.Window(a), a);
      forall b
        ensures m.InSomePadded(a, b) <==> l.InSomePadded(a, b) || r.InSomePadded(a, b)
      {
        assert forall w :: w in m.Requests() <==> w in l.Requests() || w in r.Requests();
      }
  }
}

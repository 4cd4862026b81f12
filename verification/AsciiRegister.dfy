/** How an ASCII register lays out its strings in the raw buffer: fixed-size elements padded with zero bytes. */
module AsciiCodec {

  newtype byte = x: int | 0 <= x < 256

  type Text = seq<byte>

  /** The part of a buffer a C string function looks at: up to the first zero byte. */
  function CString(t: Text): (r: Text)
    ensures r <= t && 0 !in r
    ensures |r| < |t| ==> t[|r|] == 0
  {
    if t == [] || t[0] == 0 then [] else [t[0]] + CString(t[1..])
  }

  lemma {:induction false} CStringUnique(t: Text, r: Text)
    requires r <= t && 0 !in r && (|r| < |t| ==> t[|r|] == 0)
    ensures CString(t) == r
  {
    if r != [] {
      assert 0 != r[0];
      CStringUnique(t[1..], r[1..]);
    }
  }

  function Truncated(t: Text, n: nat): Text {
    if |t| <= n then t else t[..n]
  }

  /** One element as written by memset and strncpy. */
  function Encode(t: Text, n: nat): (r: seq<byte>)
    ensures |r| == n
  {
    var c := Truncated(CString(t), n);
    c + seq(n - |c|, _ => 0 as byte)
  }

  /** One element as read with strnlen. */
  function Decode(raw: seq<byte>): Text {
    CString(raw)
  }

  /** A string comes back up to its first zero byte and up to the element size. */
  lemma {:induction false} RoundTrip(t: Text, n: nat)
    ensures Decode(Encode(t, n)) == Truncated(CString(t), n)
  {
    CStringUnique(Encode(t, n), Truncated(CString(t), n));
  }

  /** Size of `count` elements of n bytes. */
  function Size(count: nat, n: nat): nat {
    if count == 0 then 0 else Size(count - 1, n) + n
  }

  lemma {:induction false} SizeIsProduct(count: nat, n: nat)
    ensures Size(count, n) == count * n
  {
    if count > 0 {
      SizeIsProduct(count - 1, n);
      assert count * n == (count - 1) * n + n;
    }
  }

  lemma {:induction false} SizeMonotone(k: nat, count: nat, n: nat)
    requires k <= count
    ensures Size(k, n) <= Size(count, n)
  {
    if k < count { SizeMonotone(k, count - 1, n); }
  }

  function EncodeAll(ts: seq<Text>, n: nat): (r: seq<byte>)
    ensures |r| == Size(|ts|, n)
  {
    if ts == [] then []
    else
      var k := |ts| - 1;
      EncodeAll(ts[..k], n) + Encode(ts[k], n)
  }

  function DecodeAll(raw: seq<byte>, n: nat, count: nat): (ts: seq<Text>)
    requires |raw| == Size(count, n)
    ensures |ts| == count
    decreases count
  {
    if count == 0 then []
    else
      var k := Size(count - 1, n);
      DecodeAll(raw[..k], n, count - 1) + [Decode(raw[k..])]
  }

  lemma {:induction false} EncodeSnoc(ts: seq<Text>, k: nat, n: nat)
    requires k < |ts|
    ensures EncodeAll(ts[..k + 1], n) == EncodeAll(ts[..k], n) + Encode(ts[k], n)
  {
    assert ts[..k + 1][..k] == ts[..k];
  }

  lemma {:induction false} DecodeSnoc(e: seq<byte>, x: seq<byte>, n: nat, k: nat)
    requires |e| == Size(k, n) && |x| == n
    ensures DecodeAll(e + x, n, k + 1) == DecodeAll(e, n, k) + [Decode(x)]
  {
    assert (e + x)[..Size(k, n)] == e && (e + x)[Size(k, n)..] == x;
  }

  lemma {:induction false} EncodedInElement(t: Text, n: nat, k: nat)
    requires k < n
    ensures Encode(t, n)[k] == if k < |CString(t)| then t[k] else 0
  {
  }

  /** Byte k of element e is that of the string, or zero from its first zero byte on. */
  lemma {:induction false} EncodedByte(ts: seq<Text>, n: nat, e: nat, k: nat)
    requires e < |ts| && k < n
    ensures Size(e, n) + k < |EncodeAll(ts, n)|
    ensures EncodeAll(ts, n)[Size(e, n) + k] == if k < |CString(ts[e])| then ts[e][k] else 0
  {
    hide Encode, CString;
    var last := |ts| - 1;
    assert EncodeAll(ts, n) == EncodeAll(ts[..last], n) + Encode(ts[last], n);
    if e < last {
      SizeMonotone(e + 1, last, n);
      EncodedByte(ts[..last], n, e, k);
    } else {
      EncodedInElement(ts[e], n, k);
    }
  }

  /** What comes back of a list of strings. */
  function Clean(ts: seq<Text>, n: nat): seq<Text> {
    if ts == [] then [] else Clean(ts[..|ts| - 1], n) + [Truncated(CString(ts[|ts| - 1]), n)]
  }

  /** The whole register round trip. */
  lemma {:induction false} RoundTripAll(ts: seq<Text>, n: nat)
    ensures DecodeAll(EncodeAll(ts, n), n, |ts|) == Clean(ts, n)
  {
    if ts != [] {
      var k := |ts| - 1;
      DecodeSnoc(EncodeAll(ts[..k], n), Encode(ts[k], n), n, k);
      RoundTripAll(ts[..k], n);
      RoundTrip(ts[k], n);
    }
  }
}

/**
 NumericAddressedLowLevelTransferElement, which transfers an aligned window of raw bytes, and the ASCII accessor on top
 of it, as objects.
 */
module AsciiRegister {
  import opened Samples
  import opened AsciiCodec
  import opened AlignedWindow
  import opened Splicing

  /** The numeric addressed backend. */
  class Device {
    const alignment: seq<nat>    // minimumTransferAlignment, per bar
    const canMerge: bool         // canMergeRequests
    var bars: seq<seq<byte>>
    var isOpen: bool
    var locked: bool             // the mutex _unalignedAccess

    ghost predicate Valid()
      reads this
    {
      |alignment| == |bars| && forall i :: 0 <= i < |alignment| ==> alignment[i] > 0
    }

    constructor (bars: seq<seq<byte>>, alignment: seq<nat>, canMerge: bool)
      requires |alignment| == |bars| && forall i :: 0 <= i < |alignment| ==> alignment[i] > 0
      ensures Valid() && this.bars == bars && this.alignment == alignment && this.canMerge == canMerge
      ensures !isOpen && !locked
    {
      this.alignment, this.canMerge, this.bars := alignment, canMerge, bars;
      isOpen, locked := false, false;
    }
  }

  class LowLevelElement {
    const dev: Device
    const bar: nat
    var startAddress: nat
    var numberOfBytes: nat
    var isUnaligned: bool
    var isShared: bool
    var ownsLock: bool
    var rawDataBuffer: seq<byte>
    // of the base class TransferElement
    var version: nat
    var validity: Validity
    var reading: bool            // readTransactionInProgress
    var activeException: bool

    function Raw(): Window
      reads this
    {
      Window(startAddress, numberOfBytes)
    }

    ghost predicate Valid()
      reads this, dev
    {
      && dev.Valid() && bar < |dev.bars|
      && |rawDataBuffer| == numberOfBytes
      && Raw().IsAligned(dev.alignment[bar])
      && (ownsLock ==> dev.locked)
    }

    /** The window lies inside the bar, so that the backend's read and write do not fail. */
    ghost predicate InsideBar()
      requires Valid()
      reads this, dev
    {
      Raw().End() <= |dev.bars[bar]|
    }

    constructor (dev: Device, bar: nat, start: nat, bytes: nat)
      requires dev.Valid() && bar < |dev.bars|
      ensures Valid() && this.dev == dev && this.bar == bar && !isShared && !ownsLock
      ensures Raw() == Padded(Window(start, bytes), dev.alignment[bar])
      ensures isUnaligned <==> Raw() != Window(start, bytes)
    {
      this.dev, this.bar := dev, bar;
      startAddress, numberOfBytes, isUnaligned, rawDataBuffer := 0, 0, false, [];
      isShared, ownsLock := false, false;
      new;
      SetAddress(start, bytes);
    }

    method SetAddress(start: nat, bytes: nat)
      requires dev.Valid() && bar < |dev.bars| && !ownsLock
      modifies this`startAddress, this`numberOfBytes, this`isUnaligned, this`rawDataBuffer
      ensures Valid()
      ensures Raw() == Padded(Window(start, bytes), dev.alignment[bar])
      ensures isUnaligned <==> Raw() != Window(start, bytes)
      ensures forall k :: 0 <= k < |rawDataBuffer| ==>
                rawDataBuffer[k] == if k < |old(rawDataBuffer)| then old(rawDataBuffer)[k] else 0
    {
      startAddress, numberOfBytes := start, bytes;
      isUnaligned := false;
      var a := dev.alignment[bar];
      PaddingArithmetic(start, bytes, a);
      var startPadding := startAddress % a;
      if startPadding > 0 {
        isUnaligned := true;
      }
      startAddress := startAddress - startPadding;
      numberOfBytes := numberOfBytes + startPadding;
      var endPadding := a - numberOfBytes % a;
      if endPadding != a {
        isUnaligned := true;
        numberOfBytes := numberOfBytes + endPadding;
      }
      if numberOfBytes <= |rawDataBuffer| {
        rawDataBuffer := rawDataBuffer[..numberOfBytes];
      } else {
        rawDataBuffer := rawDataBuffer + seq(numberOfBytes - |rawDataBuffer|, _ => 0 as byte);
      }
      PaddedIsSmallest(Window(start, bytes), a);
    }

    /** The range is replaced by the one given, and the element is known to be shared from now on. */
    method ChangeAddress(start: nat, bytes: nat)
      requires Valid() && !ownsLock
      modifies this`startAddress, this`numberOfBytes, this`isUnaligned, this`rawDataBuffer, this`isShared
      ensures Valid() && isShared
      ensures Raw() == Padded(Window(start, bytes), dev.alignment[bar])
      ensures isUnaligned <==> Raw() != Window(start, bytes)
    {
      SetAddress(start, bytes);
      isShared := true;
    }

    /** Another element can be merged into this one if it transfers part of the same bar, and the windows leave no gap.
        */
    predicate IsMergeable(other: LowLevelElement): (r: bool)
      reads this, other
      ensures r <==> dev.canMerge && dev == other.dev && bar == other.bar && Touching(Raw(), other.Raw())
    {
      && dev.canMerge
      && dev == other.dev
      && bar == other.bar
      && !(startAddress + numberOfBytes < other.startAddress)
      && !(startAddress > other.startAddress + other.numberOfBytes)
    }

    /** Offset of an address in the raw buffer. */
    function Begin(address: nat): nat
      requires startAddress <= address
      reads this
    {
      address - startAddress
    }

    method DoReadTransfer()
      requires Valid() && InsideBar()
      modifies this`rawDataBuffer
      ensures Valid() && rawDataBuffer == dev.bars[bar][startAddress..startAddress + numberOfBytes]
    {
      rawDataBuffer := dev.bars[bar][startAddress..startAddress + numberOfBytes];
    }

    /** postRead(): each transfer brings one new version number, seen by all accessors sharing the element; an exception
        is re-thrown on each call. */
    method PostRead(hasNewData: bool, newVersion: nat) returns (threw: bool)
      modifies this`version, this`reading
      ensures threw == activeException && !reading
      ensures version == if old(reading) && hasNewData then newVersion else old(version)
    {
      if reading {
        reading := false;
        if hasNewData {
          version := newVersion;
        }
      }
      threw := activeException;
    }

    method DoPreWrite()
      requires Valid() && InsideBar() && !ownsLock && (isUnaligned ==> !dev.locked)
      modifies this`rawDataBuffer, this`ownsLock, dev`locked
      ensures Valid() && ownsLock == isUnaligned && dev.locked == (old(dev.locked) || isUnaligned)
      ensures rawDataBuffer ==
              if isUnaligned then dev.bars[bar][startAddress..startAddress + numberOfBytes] else old(rawDataBuffer)
    {
      if isUnaligned {
        dev.locked, ownsLock := true, true;
        DoReadTransfer();
      }
    }

    method DoWriteTransfer()
      requires Valid() && InsideBar()
      modifies dev`bars
      ensures Valid()
      ensures dev.bars == old(dev.bars)[bar := Splice(old(dev.bars)[bar], startAddress, rawDataBuffer)]
    {
      dev.bars := dev.bars[bar := Splice(dev.bars[bar], startAddress, rawDataBuffer)];
    }

    method DoPostWrite()
      requires Valid()
      modifies this`ownsLock, dev`locked
      ensures Valid() && !ownsLock
      ensures dev.locked == (old(dev.locked) && !old(ownsLock))
    {
      if ownsLock {
        dev.locked, ownsLock := false, false;
      }
    }
  }

  lemma CeilOfSum(base: nat, n: nat, a: nat)
    requires a > 0 && base % a == 0
    ensures (base + n) % a == n % a
    decreases n
  {
    var k := n / a;
    assert n == a * k + n % a;
    MultipleIsAligned(k, a);
    SumOfAligned(base, a * k, a);
    var q := (base + a * k) / a;
    QuotientUnique(base + n, a, q, n % a);
  }

  /** What setAddress computes is Padded, and its flag says whether anything had to be padded. */
  lemma PaddingArithmetic(start: nat, bytes: nat, a: nat)
    requires a > 0
    ensures var p := start % a;
            var n := bytes + p;
            var w := Padded(Window(start, bytes), a);
            && p < a && n % a < a
            && start - p == w.start
            && (if n % a == 0 then n else n + (a - n % a)) == w.bytes
            && (p > 0 || n % a != 0 <==> w != Window(start, bytes))
  {
    FloorAligned(start, a);
    CeilOfSum(Floor(start, a), bytes + start % a, a);
  }

  /** Writing into a copy of a window and writing the window back changes only what has been written into it. */
  lemma SpliceThroughWindow<D>(s: seq<D>, w: Window, k: nat, t: seq<D>)
    requires w.End() <= |s| && w.start <= k && k + |t| <= w.End()
    ensures Splice(s, w.start, Splice(s[w.start..w.End()], k - w.start, t)) == Splice(s, k, t)
  {
  }

  /** The device after a raw buffer with the register's content filled in has been transferred. */
  function Transferred<D>(s: seq<D>, w: Window, k: nat, t: seq<D>, leftover: seq<D>, unaligned: bool): seq<D>
    requires w.End() <= |s| && w.start <= k && k + |t| <= w.End() && |leftover| == w.bytes
  {
    Splice(s, w.start, Splice(if unaligned then s[w.start..w.End()] else leftover, k - w.start, t))
  }

  lemma TransferResult<D>(s: seq<D>, w: Window, k: nat, t: seq<D>, leftover: seq<D>, unaligned: bool)
    requires w.End() <= |s| && w.start <= k && k + |t| <= w.End() && |leftover| == w.bytes
    requires unaligned || w == Window(k, |t|)
    ensures Transferred(s, w, k, t, leftover, unaligned) == Splice(s, k, t)
  {
    if unaligned { SpliceThroughWindow(s, w, k, t); }
  }

  /** The raw buffer after the first k strings. */
  ghost function FilledUpTo(rawBuffer: seq<byte>, begin: nat, texts: seq<Text>, k: nat, n: nat): (r: seq<byte>)
    requires k <= |texts| && begin + Size(|texts|, n) <= |rawBuffer|
    ensures |r| == |rawBuffer|
  {
    SizeMonotone(k, |texts|, n);
    Splice(rawBuffer, begin, EncodeAll(texts[..k], n))
  }

  lemma FillNext(rawBuffer: seq<byte>, begin: nat, texts: seq<Text>, k: nat, n: nat)
    requires k < |texts| && begin + Size(|texts|, n) <= |rawBuffer|
    ensures Size(k, n) + n == Size(k + 1, n) <= Size(|texts|, n)
    ensures Splice(FilledUpTo(rawBuffer, begin, texts, k, n), begin + Size(k, n), Encode(texts[k], n)) ==
            FilledUpTo(rawBuffer, begin, texts, k + 1, n)
  {
    SizeMonotone(k + 1, |texts|, n);
    EncodeSnoc(texts, k, n);
    SpliceTwice(rawBuffer, begin, EncodeAll(texts[..k], n), Encode(texts[k], n));
  }

  lemma {:induction false} FilledFromTo(rawBuffer: seq<byte>, begin: nat, texts: seq<Text>, n: nat)
    requires begin + Size(|texts|, n) <= |rawBuffer|
    ensures FilledUpTo(rawBuffer, begin, texts, 0, n) == rawBuffer
    ensures FilledUpTo(rawBuffer, begin, texts, |texts|, n) == Splice(rawBuffer, begin, EncodeAll(texts, n))
  {
    assert texts[..0] == [] && texts[..|texts|] == texts;
  }

  /** The loop of doPreWrite: puts the strings into the raw buffer element by element, starting at dst. */
  method FillElements(rawBuffer: seq<byte>, begin: nat, texts: seq<Text>, n: nat) returns (r: seq<byte>)
    requires begin + Size(|texts|, n) <= |rawBuffer|
    ensures r == Splice(rawBuffer, begin, EncodeAll(texts, n))
  {
    hide FilledUpTo, Encode;
    FilledFromTo(rawBuffer, begin, texts, n);
    r := rawBuffer;
    var dst := begin;
    var el := 0;
    while el < |texts|
      invariant 0 <= el <= |texts|
      invariant dst == begin + Size(el, n)
      invariant r == FilledUpTo(rawBuffer, begin, texts, el, n)
    {
      FillNext(rawBuffer, begin, texts, el, n);
      r := Splice(r, dst, Encode(texts[el], n));
      dst := dst + n;
      el := el + 1;
    }
  }

  /** The part of the raw buffer which holds the first k strings. */
  ghost function PartUpTo(rawBuffer: seq<byte>, begin: nat, k: nat, count: nat, n: nat): (r: seq<byte>)
    requires k <= count && begin + Size(count, n) <= |rawBuffer|
    ensures |r| == Size(k, n)
  {
    SizeMonotone(k, count, n);
    rawBuffer[begin..][..Size(k, n)]
  }

  lemma PartNext(rawBuffer: seq<byte>, begin: nat, k: nat, count: nat, n: nat)
    requires k < count && begin + Size(count, n) <= |rawBuffer|
    ensures begin + Size(k, n) + n == begin + Size(k + 1, n) <= |rawBuffer|
    ensures PartUpTo(rawBuffer, begin, k + 1, count, n) ==
            PartUpTo(rawBuffer, begin, k, count, n) + rawBuffer[begin + Size(k, n)..begin + Size(k, n) + n]
  {
    SizeMonotone(k + 1, count, n);
    NextElement(rawBuffer, begin, Size(k, n), n);
  }

  lemma ReadNext(rawBuffer: seq<byte>, begin: nat, k: nat, count: nat, n: nat)
    requires k < count && begin + Size(count, n) <= |rawBuffer|
    ensures begin + Size(k, n) + n == begin + Size(k + 1, n) <= |rawBuffer|
    ensures DecodeAll(PartUpTo(rawBuffer, begin, k + 1, count, n), n, k + 1) ==
            DecodeAll(PartUpTo(rawBuffer, begin, k, count, n), n, k)
              + [Decode(rawBuffer[begin + Size(k, n)..begin + Size(k, n) + n])]
  {
    hide PartUpTo, Decode;
    PartNext(rawBuffer, begin, k, count, n);
    DecodeSnoc(PartUpTo(rawBuffer, begin, k, count, n), rawBuffer[begin + Size(k, n)..begin + Size(k, n) + n], n, k);
  }

  lemma NextElement(rawBuffer: seq<byte>, begin: nat, k: nat, n: nat)
    requires begin + k + n <= |rawBuffer|
    ensures rawBuffer[begin..][..k + n] == rawBuffer[begin..][..k] + rawBuffer[begin + k..begin + k + n]
  {
  }

  /** The loop of doPostRead: reads the strings from the raw buffer element by element. */
  method ReadElements(rawBuffer: seq<byte>, begin: nat, count: nat, n: nat) returns (texts: seq<Text>)
    requires begin + Size(count, n) <= |rawBuffer|
    ensures texts == DecodeAll(rawBuffer[begin..][..Size(count, n)], n, count)
  {
    hide PartUpTo, Decode;
    ReadFromTo(rawBuffer, begin, count, n);
    var src := begin;
    var el := 0;
    texts := [];
    while el < count
      invariant 0 <= el <= count
      invariant src == begin + Size(el, n)
      invariant texts == DecodeAll(PartUpTo(rawBuffer, begin, el, count, n), n, el)
    {
      ReadNext(rawBuffer, begin, el, count, n);
      texts := texts + [Decode(rawBuffer[src..src + n])];
      src := src + n;
      el := el + 1;
    }
  }

  lemma {:induction false} ReadFromTo(rawBuffer: seq<byte>, begin: nat, count: nat, n: nat)
    requires begin + Size(count, n) <= |rawBuffer|
    ensures DecodeAll(PartUpTo(rawBuffer, begin, 0, count, n), n, 0) == []
    ensures DecodeAll(PartUpTo(rawBuffer, begin, count, count, n), n, count) ==
            DecodeAll(rawBuffer[begin..][..Size(count, n)], n, count)
  {
  }

  class AsciiAccessor {
    const dev: Device
    const address: nat
    const nElements: nat
    const charsPerElement: nat   // elementPitchBits / 8
    var raw: LowLevelElement
    var buffer: seq<Text>
    var version: nat
    var validity: Validity
    var activeException: bool

    function Own(): Window {
      Window(address, Size(nElements, charsPerElement))
    }

    ghost predicate Valid()
      reads this, raw, dev
    {
      && raw.dev == dev && raw.Valid()
      && raw.Raw().Covers(Own())
      && |buffer| == nElements
    }

    constructor (dev: Device, bar: nat, address: nat, nElements: nat, charsPerElement: nat)
      requires dev.Valid() && bar < |dev.bars|
      ensures Valid() && fresh(raw) && raw.bar == bar && !raw.ownsLock && this.dev == dev
      ensures Own() == Window(address, Size(nElements, charsPerElement))
      ensures raw.Raw() == Padded(Own(), dev.alignment[bar]) && (raw.isUnaligned <==> raw.Raw() != Own())
    {
      this.dev, this.address, this.nElements, this.charsPerElement := dev, address, nElements, charsPerElement;
      var r := new LowLevelElement(dev, bar, address, Size(nElements, charsPerElement));
      raw := r;
      buffer := seq(nElements, _ => []);
      PaddedIsSmallest(Window(address, Size(nElements, charsPerElement)), dev.alignment[bar]);
    }

    /** The raw buffer with the register's part replaced by the encoded strings. */
    ghost function FilledRaw(rawBuffer: seq<byte>): seq<byte>
      requires Valid() && |rawBuffer| == raw.numberOfBytes
      reads this, raw, dev
    {
      Splice(rawBuffer, raw.Begin(address), EncodeAll(buffer, charsPerElement))
    }

    /** Fills the strings into the raw buffer element by element; false stands for the logic_error if the device is
        closed. */
    method DoPreWrite() returns (ok: bool)
      requires Valid() && raw.InsideBar() && !raw.ownsLock && (raw.isUnaligned ==> !dev.locked)
      modifies raw`rawDataBuffer, raw`ownsLock, raw`validity, dev`locked
      ensures Valid() && ok == dev.isOpen
      ensures !ok ==> raw.rawDataBuffer == old(raw.rawDataBuffer) && !raw.ownsLock && dev.locked == old(dev.locked)
      ensures raw.validity == if ok then validity else old(raw.validity)
      ensures ok ==> raw.ownsLock == raw.isUnaligned && dev.locked == (old(dev.locked) || raw.isUnaligned)
      ensures ok ==> raw.rawDataBuffer == FilledRaw(
                if raw.isUnaligned then dev.bars[raw.bar][raw.startAddress..raw.startAddress + raw.numberOfBytes]
                else old(raw.rawDataBuffer))
    {
      hide Splice, EncodeAll, Size, Window.IsAligned;
      if !dev.isOpen {
        return false;
      }
      raw.DoPreWrite();
      raw.rawDataBuffer := FillElements(raw.rawDataBuffer, raw.Begin(address), buffer, charsPerElement);
      raw.validity := validity;
      ok := true;
    }

    method DoPostWrite()
      requires Valid()
      modifies raw`ownsLock, dev`locked
      ensures Valid() && (!dev.isOpen ==> raw.ownsLock == old(raw.ownsLock) && dev.locked == old(dev.locked))
      ensures dev.isOpen ==> !raw.ownsLock && dev.locked == (old(dev.locked) && !old(raw.ownsLock))
    {
      if dev.isOpen {
        raw.DoPostWrite();
      }
    }

    /** A write up to the end of the transfer. */
    method Transfer() returns (ok: bool)
      requires Valid() && raw.InsideBar() && !raw.ownsLock && !dev.locked
      modifies raw`rawDataBuffer, raw`ownsLock, raw`validity, dev`locked, dev`bars
      ensures Valid() && ok == dev.isOpen && raw.ownsLock == dev.locked == (ok && raw.isUnaligned)
      ensures raw.validity == if ok then validity else old(raw.validity)
      ensures dev.bars == if ok then old(dev.bars)[raw.bar :=
                Transferred(old(dev.bars)[raw.bar], raw.Raw(), address, EncodeAll(buffer, charsPerElement),
                  old(raw.rawDataBuffer), raw.isUnaligned)]
                else old(dev.bars)
    {
      hide Splice, EncodeAll, Size, Window.IsAligned;
      ok := DoPreWrite();
      if ok {
        raw.DoWriteTransfer();
      }
    }

    /** A complete write. */
    method Write() returns (ok: bool)
      requires Valid() && raw.InsideBar() && !raw.ownsLock && !dev.locked
      modifies raw`rawDataBuffer, raw`ownsLock, raw`validity, dev`locked, dev`bars
      ensures Valid() && ok == dev.isOpen && !raw.ownsLock && !dev.locked
      ensures raw.validity == if ok then validity else old(raw.validity)
      ensures dev.bars == if ok then old(dev.bars)[raw.bar :=
                Transferred(old(dev.bars)[raw.bar], raw.Raw(), address, EncodeAll(buffer, charsPerElement),
                  old(raw.rawDataBuffer), raw.isUnaligned)]
                else old(dev.bars)
    {
      hide Splice, EncodeAll, Size, Window.IsAligned, Transferred;
      ok := Transfer();
      DoPostWrite();
    }

    /** Unless the element has been merged (it is unaligned, or its window is the register itself), a write changes the
        device exactly in the register's own bytes. */
    method WriteUnmerged() returns (ok: bool)
      requires Valid() && raw.InsideBar() && !raw.ownsLock && !dev.locked
      requires raw.isUnaligned || raw.Raw() == Own()
      modifies raw`rawDataBuffer, raw`ownsLock, raw`validity, dev`locked, dev`bars
      ensures ok == dev.isOpen && !dev.locked
      ensures dev.bars == if ok
                then old(dev.bars)[raw.bar :=
                  Splice(old(dev.bars)[raw.bar], address, EncodeAll(buffer, charsPerElement))]
                else old(dev.bars)
    {
      hide Splice, EncodeAll, Size, Window.IsAligned;
      TransferResult(dev.bars[raw.bar], raw.Raw(), address, EncodeAll(buffer, charsPerElement), raw.rawDataBuffer,
        raw.isUnaligned);
      ok := Write();
    }

    method ReadStrings()
      requires Valid()
      modifies this`buffer
      ensures |buffer| == nElements
      ensures buffer == DecodeAll(raw.rawDataBuffer[raw.Begin(address)..][..Size(nElements, charsPerElement)],
                                  charsPerElement, nElements)
    {
      hide Window.IsAligned;
      buffer := ReadElements(raw.rawDataBuffer, raw.Begin(address), nElements, charsPerElement);
    }

    /** Hands the exception over to the raw accessor, which re-throws it. Without exception and with new data the
        strings are read back from the raw buffer element by element, and the meta data is taken over. */
    method DoPostRead(hasNewData: bool, newVersion: nat) returns (threw: bool)
      requires Valid()
      modifies this`buffer, this`version, this`validity, this`activeException, raw`version, raw`reading,
          raw`activeException
      ensures Valid() && (!dev.isOpen ==> !threw && activeException == old(activeException))
      ensures dev.isOpen ==>
                && threw == raw.activeException == old(activeException || raw.activeException)
                && !activeException && !raw.reading
                && raw.version == if old(raw.reading) && hasNewData then newVersion else old(raw.version)
      ensures if !dev.isOpen || threw || !hasNewData
              then buffer == old(buffer) && version == old(version) && validity == old(validity)
              else && buffer == DecodeAll(raw.rawDataBuffer[raw.Begin(address)..][..Size(nElements, charsPerElement)],
                                          charsPerElement, nElements)
                   && version == raw.version && validity == raw.validity
    {
      hide Window.IsAligned;
      if !dev.isOpen {
        return false;
      }
      if activeException {
        raw.activeException, activeException := true, false;
      }
      threw := raw.PostRead(hasNewData, newVersion);
      if threw || !hasNewData {
        return;
      }
      ReadStrings();
      version, validity := raw.version, raw.validity;
    }

    /** Merging: a mergeable low-level element takes over this accessor's window and is used from now on. Its window
        becomes the union of both, so every register it covered before is still covered, at its own offset. */
    method ReplaceTransferElement(element: LowLevelElement)
      requires Valid() && element.Valid() && !element.ownsLock
      modifies this`raw, element`startAddress, element`numberOfBytes, element`isUnaligned, element`rawDataBuffer,
          element`isShared
      ensures Valid() && element.Valid()
      ensures !old(element.IsMergeable(raw)) ==>
          raw == old(raw) && element.Raw() == old(element.Raw()) && element.isUnaligned == old(element.isUnaligned)
      ensures old(element.IsMergeable(raw)) ==>
                && raw == element && raw.isShared && !raw.isUnaligned
                && raw.Raw() == Merged(old(element.Raw()), old(raw.Raw()))
                && (forall b :: raw.Raw().Contains(b) <==> old(element.Raw()).Contains(b) || old(raw.Raw()).Contains(b))
                && (forall w: Window :: old(element.Raw()).Covers(w) || old(raw.Raw()).Covers(w) ==>
                  raw.Raw().Covers(w))
    {
      if element.IsMergeable(raw) {
        var newStart := if element.startAddress < raw.startAddress then element.startAddress else raw.startAddress;
        var end1, end2 := element.startAddress + element.numberOfBytes, raw.startAddress + raw.numberOfBytes;
        var newStop := if end1 > end2 then end1 else end2;
        MergedIsUnion(element.Raw(), raw.Raw(), dev.alignment[raw.bar]);
        element.ChangeAddress(newStart, newStop - newStart);
        raw := element;
      }
    }
  }
}

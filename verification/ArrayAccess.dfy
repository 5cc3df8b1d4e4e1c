/** Reaching elements of a written array without decoding the ones before them. */
module ArrayAccess {
  import opened ByteStrings
  import opened Codecs
  import opened Reading
  import opened Headers
  import opened Format
  import opened RoundTrips
  import opened WireBytes

  /** Where _byPass leaves the cursor, and whether it found a packet to skip. */
  datatype Bypassed = Bypassed(found: bool, next: nat)

  function BypassAt(s: Bytes, at: nat): (r: Bypassed)
    requires at <= |s|
    ensures at <= r.next <= |s|
  {
    var h := HeaderAt(s, at);
    if h.raw.contentSize >= 0 then
      Bypassed(true, SkipTo(s, h.next, h.raw.contentSize + FooterLength))
    else
      Bypassed(false, h.next)
  }

  /** Skipping n packets in a row, stopping at the first that is not there. */
  function BypassMany(s: Bytes, at: nat, n: nat): (r: Bypassed)
    requires at <= |s|
    ensures at <= r.next <= |s|
    decreases n
  {
    if n == 0 then Bypassed(true, at)
    else
      var first := BypassAt(s, at);
      if first.found then BypassMany(s, first.next, n - 1) else first
  }

  /** readContentArrayAt, on the content of an array that starts at offset at. */
  function ElementAt(codec: Codec, s: Bytes, at: nat, index: int, flat: bool): Outcome<Value>
    requires at <= |s|
  {
    if at + 4 > |s| then Stopped
    else if index >= UInt32At(s, at) then Ok(Undefined, at + 4)
    else
      var skipped := BypassMany(s, at + 4, if index < 0 then 0 else index);
      if skipped.found then ReadAt(codec, s, skipped.next, flat) else Ok(Undefined, skipped.next)
  }

  /** The bounds readContentArraySlice computes: the elements from..to, or nothing. */
  datatype Bounds = Empty | Range(from: int, to: int)

  function SliceBounds(count: nat, start: Option<int>, end: Option<int>): Bounds {
    var from := match start case None => 0 case Some(n) => if n < 0 then count + n else n;
    if from >= count then Empty
    else
      var to := match end case None => count case Some(n) => if n < 0 then count + n else if n < count then n else count;
      if to <= from then Empty else Range(from, to)
  }

  /** readContentArraySlice. A negative from is not clamped to 0: the loop that skips is not entered,
      and 'to' elements are read, which is an invalid array length when 'to' is negative. */
  function SliceAt(codec: Codec, s: Bytes, at: nat, start: Option<int>, end: Option<int>, flat: bool): Outcome<Value>
    requires at <= |s|
  {
    if at + 4 > |s| then Stopped
    else
      match SliceBounds(UInt32At(s, at), start, end)
      case Empty => Ok(Arr([]), at + 4)
      case Range(from, to) => RangeAt(codec, s, at + 4, from, to, flat)
  }

  function RangeAt(codec: Codec, s: Bytes, at: nat, from: int, to: int, flat: bool): Outcome<Value>
    requires at <= |s|
  {
    var skipped := BypassMany(s, at, if from < 0 then 0 else from);
    if !skipped.found then Ok(Undefined, skipped.next)
    else
      var n := if from < 0 then to else to - from;
      if n < 0 then Stopped
      else
        Collected(ElementsAt(codec, s, skipped.next, n, flat))
  }

  // ---- Array.prototype.slice, section 23.1.3 of ECMA-262 --------------------------------------

  function RelativeIndex(count: nat, index: int): (k: nat)
    ensures k <= count
  {
    if index < 0 then (if count + index > 0 then count + index else 0)
    else if index < count then index else count
  }

  /** Where Array.prototype.slice starts. */
  function FirstOf(count: nat, start: Option<int>): nat {
    if start.Some? then RelativeIndex(count, start.value) else 0
  }

  function JsSlice(vs: seq<Value>, start: Option<int>, end: Option<int>): seq<Value> {
    var k := FirstOf(|vs|, start);
    var final := match end case None => |vs| case Some(n) => RelativeIndex(|vs|, n);
    if k < final then vs[k..final] else []
  }

  // ---- the theorems --------------------------------------------------------------------------

  /** On any bytes: skipping moves over the packet that stands there, and stops behind its header when that
      packet ends the data; where none stands it reports so. */
  lemma BypassExactly(s: Bytes, at: nat)
    requires at <= |s|
    ensures BypassAt(s, at).found <==> PacketStands(s, at)
    ensures PacketStands(s, at) ==>
              var content := at + HeaderLength(s[at + 1]);
              var end := content + ContentSize(s, at).value + 1;
              BypassAt(s, at).next == if end < |s| then end else content
    ensures !PacketStands(s, at) ==> BypassAt(s, at).next == HeaderAt(s, at).next
  {
    hide HeaderAt;
    HeaderExactly(s, at);
  }

  lemma BypassOne(codec: Codec, v: Value, s: Bytes, at: nat)
    requires Fits(codec, v) && At(s, at, Encode(codec, v)) && at + |Encode(codec, v)| < |s|
    ensures BypassAt(s, at) == Bypassed(true, at + |Encode(codec, v)|)
  {
    HeaderOfEncoded(codec, v, s, at);
  }

  lemma {:induction false} SplitAll(codec: Codec, vs: seq<Value>, k: nat, s: Bytes, at: nat)
    requires k <= |vs| && At(s, at, EncodeAll(codec, vs))
    ensures At(s, at, EncodeAll(codec, vs[..k]))
    ensures At(s, at + |EncodeAll(codec, vs[..k])|, EncodeAll(codec, vs[k..]))
    ensures |EncodeAll(codec, vs[..k])| + |EncodeAll(codec, vs[k..])| == |EncodeAll(codec, vs)|
    decreases k
  {
    hide Encode;
    if k == 0 {
      assert vs[0..] == vs;
    } else {
      var e := Encode(codec, vs[0]);
      FirstOfAll(codec, vs, s, at);
      SplitAll(codec, vs[1..], k - 1, s, at + |e|);
      assert vs[1..][..k - 1] == vs[..k][1..] && vs[1..][k - 1..] == vs[k..];
      AtSplit(s, at, e, EncodeAll(codec, vs[..k][1..]));
    }
  }

  lemma {:induction false} BypassStep(s: Bytes, at: nat, k: nat, next: nat, place: nat)
    requires at <= |s| && next <= |s| && 0 < k
    requires BypassAt(s, at) == Bypassed(true, next) && BypassMany(s, next, k - 1) == Bypassed(true, place)
    ensures BypassMany(s, at, k) == Bypassed(true, place)
  {
  }

  lemma FirstBypassed(codec: Codec, vs: seq<Value>, s: Bytes, at: nat) returns (next: nat)
    requires vs != [] && Fits(codec, vs[0])
    requires At(s, at, EncodeAll(codec, vs)) && at + |EncodeAll(codec, vs)| < |s|
    ensures next == at + |Encode(codec, vs[0])| < |s| && BypassAt(s, at) == Bypassed(true, next)
    ensures At(s, next, EncodeAll(codec, vs[1..])) && next + |EncodeAll(codec, vs[1..])| < |s|
  {
    FirstOfAll(codec, vs, s, at);
    BypassOne(codec, vs[0], s, at);
    next := at + |Encode(codec, vs[0])|;
  }

  /** Skipping agrees with decoding: bypassing k written packets ends where the k-th one starts. */
  lemma {:induction false} BypassEncoded(codec: Codec, vs: seq<Value>, k: nat, s: Bytes, at: nat)
    requires k <= |vs| && forall i :: 0 <= i < |vs| ==> Fits(codec, vs[i])
    requires At(s, at, EncodeAll(codec, vs)) && at + |EncodeAll(codec, vs)| < |s|
    ensures BypassMany(s, at, k) == Bypassed(true, at + |EncodeAll(codec, vs[..k])|)
    decreases k
  {
    hide HeaderAt, Encode;
    if k > 0 {
      var next := FirstBypassed(codec, vs, s, at);
      var rest := vs[1..];
      BypassEncoded(codec, rest, k - 1, s, next);
      assert rest[..k - 1] == vs[..k][1..];
      BypassStep(s, at, k, next, next + |EncodeAll(codec, rest[..k - 1])|);
    }
  }

  lemma {:induction false} BypassTo(codec: Codec, vs: seq<Value>, k: nat, s: Bytes, at: nat) returns (place: nat)
    requires k <= |vs| && forall i :: 0 <= i < |vs| ==> Fits(codec, vs[i])
    requires At(s, at, EncodeAll(codec, vs)) && at + |EncodeAll(codec, vs)| < |s|
    ensures BypassMany(s, at, k) == Bypassed(true, place)
    ensures At(s, place, EncodeAll(codec, vs[k..]))
    ensures place + |EncodeAll(codec, vs[k..])| == at + |EncodeAll(codec, vs)|
  {
    hide Encode, EncodeAll, BypassMany, Fits;
    BypassEncoded(codec, vs, k, s, at);
    SplitAll(codec, vs, k, s, at);
    place := at + |EncodeAll(codec, vs[..k])|;
  }

  /** Reading gave w, or threw. */
  predicate Gives(r: Outcome<Value>, w: Option<Value>) {
    if w.Some? then r.Ok? && r.value == w.value else r == Stopped
  }

  /** s ends with the content of an array, which starts at offset at, and its footer. The array announces n
      elements and holds those of items; a written array announces as many as it holds. */
  ghost predicate ArrayPacket(codec: Codec, items: seq<Value>, n: nat, s: Bytes, at: nat) {
    && At(s, at, UInt32(n) + EncodeAll(codec, items))
    && |s| == at + 4 + |EncodeAll(codec, items)| + FooterLength
  }

  lemma ArrayPacketParts(codec: Codec, items: seq<Value>, n: nat, s: Bytes, at: nat)
    requires n < UInt32Limit && ArrayPacket(codec, items, n, s, at)
    ensures at + 4 <= |s| && UInt32At(s, at) == n
    ensures At(s, at + 4, EncodeAll(codec, items)) && at + 4 + |EncodeAll(codec, items)| == |s| - 1
  {
    AtSplit(s, at, UInt32(n), EncodeAll(codec, items));
    AtUInt32(s, at, n);
  }

  lemma {:induction false} NothingAtFooter(codec: Codec, s: Bytes, at: nat, k: nat, flat: bool)
    requires at + FooterLength == |s|
    ensures BypassMany(s, at, k) == Bypassed(k == 0, at) && ReadAt(codec, s, at, flat) == Ok(Undefined, at)
  {
  }

  /** The announced number of elements: cut short, or filled up with undefined. */
  function Padded(vs: seq<Value>, n: nat): (ps: seq<Value>)
    ensures |ps| == n
    ensures forall i :: 0 <= i < n ==> ps[i] == if i < |vs| then vs[i] else Undefined
  {
    if n <= |vs| then vs[..n] else vs + seq(n - |vs|, _ => Undefined)
  }

  lemma PaddedTail(vs: seq<Value>, k: nat)
    requires 0 < k
    ensures Padded(vs, k)[0] == (if vs == [] then Undefined else vs[0])
    ensures Padded(vs, k)[1..] == Padded(if vs == [] then [] else vs[1..], k - 1)
  {
  }

  /** Reading k elements where those of vs were written, and behind them nothing but a footer. */
  lemma {:induction false} PaddedOfEncoded(codec: Codec, vs: seq<Value>, k: nat, s: Bytes, at: nat, flat: bool)
    returns (end: nat)
    requires forall i :: 0 <= i < |vs| ==> Fits(codec, vs[i])
    requires At(s, at, EncodeAll(codec, vs)) && at + |EncodeAll(codec, vs)| + FooterLength == |s|
    ensures ElementsAt(codec, s, at, k, flat) == Arrived(ArrivalAll(codec, Padded(vs, k)), end)
    decreases k
  {
    hide Encode, ReadAt, HeaderAt, Arrival, Fits, Padded, BypassMany;
    if k == 0 {
      assert Padded(vs, k) == [];
      end := at;
    } else {
      PaddedTail(vs, k);
      var next := at;
      if vs == [] {
        NothingAtFooter(codec, s, at, k, flat);
        UndefinedArrives(codec);
        end := PaddedOfEncoded(codec, vs, k - 1, s, at, flat);
      } else {
        next := FirstOfEncoded(codec, vs, s, at, flat);
        end := PaddedOfEncoded(codec, vs[1..], k - 1, s, next, flat);
      }
      ElementsStep(codec, s, at, Padded(vs, k), flat, next, end);
    }
  }

  lemma UndefinedArrives(codec: Codec)
    ensures Arrival(codec, Undefined) == Some(Undefined)
  {
  }

  /** Element k of an array is reached without decoding the ones before it. */
  lemma {:induction false} ReachElement(codec: Codec, vs: seq<Value>, k: nat, s: Bytes, at: nat, flat: bool)
    returns (place: nat)
    requires k < |vs| && forall i :: 0 <= i < |vs| ==> Fits(codec, vs[i])
    requires At(s, at, EncodeAll(codec, vs)) && at + |EncodeAll(codec, vs)| < |s|
    ensures BypassMany(s, at, k) == Bypassed(true, place) && place <= |s|
    ensures Gives(ReadAt(codec, s, place, flat), Arrival(codec, vs[k]))
  {
    place := BypassTo(codec, vs, k, s, at);
    var _ := FirstOfEncoded(codec, vs[k..], s, place, flat);
  }

  /** Skipping as many packets as there are, or more. */
  lemma {:induction false} BypassAll(codec: Codec, vs: seq<Value>, k: nat, s: Bytes, at: nat)
    requires |vs| <= k && forall i :: 0 <= i < |vs| ==> Fits(codec, vs[i])
    requires At(s, at, EncodeAll(codec, vs)) && at + |EncodeAll(codec, vs)| + FooterLength == |s|
    ensures BypassMany(s, at, k) == Bypassed(k == |vs|, |s| - 1)
    decreases k
  {
    hide HeaderAt, Encode, BypassAt, Fits;
    if vs == [] {
      NothingAtFooter(codec, s, at, k, true);
    } else {
      var next := FirstBypassed(codec, vs, s, at);
      BypassAll(codec, vs[1..], k - 1, s, next);
    }
  }

  /** parseArrayAt, for every index and every announced count: only the element asked for is decoded. Undefined
      from the announced count on, and from the end of the elements on; for a negative index the first element
      instead of JavaScript's undefined. */
  lemma ElementOfEncoded(codec: Codec, items: seq<Value>, n: nat, s: Bytes, at: nat, index: int, flat: bool)
    requires n < UInt32Limit && forall i :: 0 <= i < |items| ==> Fits(codec, items[i])
    requires ArrayPacket(codec, items, n, s, at)
    ensures Gives(ElementAt(codec, s, at, index, flat),
                  if index >= n || index >= |items| || items == [] then Some(Undefined)
                  else Arrival(codec, items[if index < 0 then 0 else index]))
  {
    hide HeaderAt, Encode, ReadAt, BypassMany, Arrival, Fits, UInt32, ArrayPacket;
    ArrayPacketParts(codec, items, n, s, at);
    if index < n {
      if index >= |items| || items == [] {
        BypassAll(codec, items, if index < 0 then 0 else index, s, at + 4);
        NothingAtFooter(codec, s, |s| - 1, 0, flat);
      } else {
        var _ := ReachElement(codec, items, if index < 0 then 0 else index, s, at + 4, flat);
      }
    }
  }

  /** Without the bytes of a count, taking an element or a slice throws; an index behind the count and an empty slice
      read nothing but the count. */
  lemma CountOnly(codec: Codec, s: Bytes, at: nat, index: int, start: Option<int>, end: Option<int>, flat: bool)
    requires at <= |s|
    ensures at + 4 > |s| ==> ElementAt(codec, s, at, index, flat) == SliceAt(codec, s, at, start, end, flat) == Stopped
    ensures at + 4 <= |s| && index >= WireBytes.Number(s, at) ==>
              ElementAt(codec, s, at, index, flat) == Ok(Undefined, at + 4)
    ensures at + 4 <= |s| && SliceBounds(WireBytes.Number(s, at), start, end) == Empty ==>
              SliceAt(codec, s, at, start, end, flat) == Ok(Arr([]), at + 4)
  {
    hide BypassMany, ReadAt, RangeAt, SliceBounds;
  }

  /** JavaScript's own indexing. */
  function JsAt(vs: seq<Value>, index: int): Value {
    if 0 <= index < |vs| then vs[index] else Undefined
  }

  /** parseArrayAt is indexing of the full parse exactly when the index is not negative, or the array
      starts with nothing to confuse it. */
  lemma ElementIsIndexing(codec: Codec, items: seq<Value>, s: Bytes, at: nat, index: int, flat: bool)
    requires Serialisable(codec, Arr(items)) && ArrayPacket(codec, items, |items|, s, at)
    ensures var r := ElementAt(codec, s, at, index, flat);
            r.Ok? && (r.value == JsAt(items, index) <==> index >= 0 || items == [] || items[0] == Undefined)
  {
    hide Arrival;
    ElementOfEncoded(codec, items, |items|, s, at, index, flat);
    if index < |items| && items != [] {
      FaithfulArrives(codec, items[if index < 0 then 0 else index]);
    }
  }

  /** The bounds computed are those of Array.prototype.slice, with a start before the first element
      left negative. */
  lemma BoundsOfSlice(vs: seq<Value>, start: Option<int>, end: Option<int>)
    ensures match SliceBounds(|vs|, start, end)
            case Empty => JsSlice(vs, start, end) == []
            case Range(from, to) =>
              && from < |vs| && from < to <= |vs|
              && (from < 0 <==> start.Some? && start.value < -|vs|)
              && JsSlice(vs, start, end) == (if to < 0 then [] else vs[if from < 0 then 0 else from..to])
              && (from >= 0 ==> from == FirstOf(|vs|, start))
  {
  }

  /** The one family of bounds on which slicing without decoding differs from slicing: start < end < -len. */
  predicate BeforeTheFirst(count: nat, start: Option<int>, end: Option<int>) {
    start.Some? && end.Some? && start.value < end.value < 0 - count
  }

  lemma PaddedRange(vs: seq<Value>, n: nat, from: nat, to: nat)
    requires from <= |vs| && from <= to <= n
    ensures Padded(vs, n)[from..to] == Padded(vs[from..], to - from)
  {
  }

  lemma {:induction false} RangeHere(codec: Codec, s: Bytes, at: nat, from: int, to: int, flat: bool, place: nat,
                                     ws: Option<seq<Value>>, end: nat)
    requires at <= |s| && place <= |s| && from <= to && 0 <= to
    requires BypassMany(s, at, if from < 0 then 0 else from) == Bypassed(true, place)
    requires ElementsAt(codec, s, place, if from < 0 then to else to - from, flat) == Arrived(ws, end)
    ensures Gives(RangeAt(codec, s, at, from, to, flat), AsArray(ws))
  {
    hide BypassMany, ElementsAt;
  }

  /** The elements from..to of an array that announces at least to of them. */
  lemma RangeOfEncoded(codec: Codec, items: seq<Value>, n: nat, from: int, to: int, s: Bytes, at: nat, flat: bool)
    requires forall i :: 0 <= i < |items| ==> Fits(codec, items[i])
    requires At(s, at, EncodeAll(codec, items)) && at + |EncodeAll(codec, items)| + FooterLength == |s|
    requires from < to <= n
    ensures Gives(RangeAt(codec, s, at, from, to, flat),
                  if from > |items| then Some(Undefined)
                  else if to < 0 then None
                  else AsArray(ArrivalAll(codec, Padded(items, n)[if from < 0 then 0 else from..to])))
  {
    hide Encode, ReadAt, HeaderAt, Arrival, Fits, Padded, BypassMany, ElementsAt, ArrivalAll;
    if from > |items| {
      BypassAll(codec, items, from, s, at);
    } else if to >= 0 {
      var first := if from < 0 then 0 else from;
      var place := BypassTo(codec, items, first, s, at);
      var end := PaddedOfEncoded(codec, items[first..], to - first, s, place, flat);
      PaddedRange(items, n, first, to);
      RangeHere(codec, s, at, from, to, flat, place, ArrivalAll(codec, Padded(items[first..], to - first)), end);
    } else {
      NoneSkipped(s, at);
    }
  }

  lemma NoneSkipped(s: Bytes, at: nat)
    requires at <= |s|
    ensures BypassMany(s, at, 0) == Bypassed(true, at)
  {
  }

  /** Slicing without decoding, for every start, end and announced count: the slice of the array filled up to
      the announced count; an exception exactly when start < end < -count; and, not even an array, undefined
      when the slice starts behind the end of the elements. Only the elements of the slice are decoded. */
  lemma SliceOfEncoded(codec: Codec, items: seq<Value>, n: nat, s: Bytes, at: nat, start: Option<int>,
                       end: Option<int>, flat: bool)
    requires n < UInt32Limit && forall i :: 0 <= i < |items| ==> Fits(codec, items[i])
    requires ArrayPacket(codec, items, n, s, at)
    ensures var slice := JsSlice(Padded(items, n), start, end);
            Gives(SliceAt(codec, s, at, start, end, flat),
                  if BeforeTheFirst(n, start, end) then None
                  else if slice != [] && FirstOf(n, start) > |items| then Some(Undefined)
                  else AsArray(ArrivalAll(codec, slice)))
  {
    hide Encode, Fits, Padded, RangeAt, ArrayPacket, JsSlice;
    ArrayPacketParts(codec, items, n, s, at);
    BoundsOfSlice(Padded(items, n), start, end);
    match SliceBounds(n, start, end)
    case Empty =>
    case Range(from, to) => RangeOfEncoded(codec, items, n, from, to, s, at + 4, flat);
  }

  // ---- the inputs on which the code departs from JavaScript ---------------------------------------

  lemma OneNull(codec: Codec)
    ensures Fits(codec, Arr([Null])) && Arrival(codec, Null) == Some(Null)
  {
    ArrayImage(codec);
    assert [Null][1..] == [];
    assert EncodeAll(codec, [Null]) == Encode(codec, Null);
  }

  /** slice(-3, -2) of a one-element array: JavaScript gives [], the packet an exception. */
  lemma SliceThrows(codec: Codec, s: Bytes, at: nat, flat: bool)
    requires ArrayPacket(codec, [Null], 1, s, at)
    ensures JsSlice([Null], Some(-3), Some(-2)) == []
    ensures SliceAt(codec, s, at, Some(-3), Some(-2), flat) == Stopped
  {
    OneNull(codec);
    SliceOfEncoded(codec, [Null], 1, s, at, Some(-3), Some(-2), flat);
  }

  /** Element -1 of a one-element array: JavaScript gives undefined, the packet the first element. */
  lemma NegativeIndexIsFirst(codec: Codec, s: Bytes, at: nat, flat: bool)
    requires ArrayPacket(codec, [Null], 1, s, at)
    ensures JsAt([Null], -1) == Undefined
    ensures ElementAt(codec, s, at, -1, flat).Ok? && ElementAt(codec, s, at, -1, flat).value == Null
  {
    OneNull(codec);
    ElementOfEncoded(codec, [Null], 1, s, at, -1, flat);
  }
}

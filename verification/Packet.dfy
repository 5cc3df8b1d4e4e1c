/** src/packet/ipcPacketBufferList.ts and src/packet/ipcPacketBuffer.ts, with what they inherit from
    src/packet/ipcPacketBufferCore.ts. */
module Packets {
  import opened ByteStrings
  import opened Codecs
  import opened ListReading
  import opened FlatReading
  import opened Reading
  import opened Headers
  import opened Format
  import opened RoundTrips
  import opened WireBytes
  import opened ArrayAccess
  import opened PacketReading
  import opened Writing
  import opened PacketWriting

  /** Looking at the next header leaves no trace: neither the offset nor any byte changes, even when the
      header straddled chunks that had to be merged. */
  method PeekHeader(r: Reader) returns (raw: RawHeader)
    requires r.Valid()
    modifies r.Repr()
    ensures r.Valid() && r.Kept() && r.Offset() == old(r.Offset())
    ensures raw == HeaderAt(r.Data(), r.Offset()).raw
  {
    var context := r.GetContext();
    ghost var stamp, chunks := r.Stamp(), r.Chunks();
    raw := ReadHeader(r);
    SavedContextHolds(r, context, stamp, chunks);
    r.SetContext(context);
  }

  lemma SavedContextHolds(r: Reader, c: Context, stamp: nat, chunks: seq<Bytes>)
    requires r.Valid() && Good(c, stamp, chunks) && c.timestamp == stamp
    requires Evolved(stamp, chunks, r.Stamp(), r.Chunks())
    requires r.Stamp() != stamp ==> c.offset + FixedHeaderSize <= |r.Data()|
    ensures Good(c, r.Stamp(), r.Chunks()) && Restorable(c, r.Stamp(), r.Chunks())
  {
    GoodSurvives(c, stamp, chunks, r.Stamp(), r.Chunks());
    if r.Flat? {
      ConcatOne(r.flat.buffer);
    }
  }

  /** The bytes of a complete packet, cut out of the data, are that packet. */
  lemma TakenWhole(s: Bytes, at: nat, bytes: Bytes)
    requires at <= |s| && Complete(s, at) && bytes == s[at..at + HeaderAt(s, at).raw.PacketSize()]
    ensures Complete(bytes, 0) && HeaderAt(bytes, 0).raw == HeaderAt(s, at).raw
  {
    AtWhole(bytes);
    HeaderIsLocal(s, at, bytes, 0);
  }

  // ---- what may be asked of a packet ------------------------------------------------------------

  /** parse, parseArrayLength, parseArrayAt, parseArraySlice and buffer. */
  datatype Query = Whole | Length | Element(index: int) | Slice(start: Option<int>, end: Option<int>) | TheBuffer

  /** The answer, by a flat or a list reader, on a packet that holds the bytes s. */
  function Reply(codec: Codec, s: Bytes, q: Query, flat: bool): Outcome<Value>
    requires Complete(s, 0)
  {
    var raw := HeaderAt(s, 0).raw;
    match q
    case Whole => ContentAt(codec, s, raw.headerSize, raw.kind, raw.contentSize, flat)
    case Length =>
      if raw.headerSize + 4 <= |s| then Ok(Int(UInt32At(s, raw.headerSize)), raw.headerSize + 4) else Stopped
    case Element(index) => ElementAt(codec, s, raw.headerSize, index, flat)
    case Slice(start, end) => SliceAt(codec, s, raw.headerSize, start, end, flat)
    case TheBuffer => Ok(Buf(s), 0)
  }

  /** Exceptions included, both readers give the same answer, up to the payloads of ArrayBuffers; only an
      ArrayBuffer content of size 0 is out of the list reader's model. */
  lemma RepliesAlike(codec: Codec, s: Bytes, q: Query)
    requires Complete(s, 0) && !Reply(codec, s, q, false).Unmodelled?
    ensures Reply(codec, s, q, true) == Reply(codec, s, q, false)
  {
    hide HeaderAt, ContentAt, ElementAt, SliceAt;
    var raw := HeaderAt(s, 0).raw;
    match q
    case Whole => FlatContentAlike(codec, s, raw.headerSize, raw.kind, raw.contentSize);
    case Length =>
    case Element(index) => FlatElementAlike(codec, s, raw.headerSize, index);
    case Slice(start, end) => FlatSliceAlike(codec, s, raw.headerSize, start, end);
    case TheBuffer =>
  }

  lemma FlatElementAlike(codec: Codec, s: Bytes, at: nat, index: int)
    requires at <= |s| && !ElementAt(codec, s, at, index, false).Unmodelled?
    ensures ElementAt(codec, s, at, index, true) == ElementAt(codec, s, at, index, false)
  {
    hide HeaderAt, ReadAt, BypassMany;
    if at + 4 <= |s| && index < UInt32At(s, at) {
      var skipped := BypassMany(s, at + 4, if index < 0 then 0 else index);
      if skipped.found {
        FlatReadsAlike(codec, s, skipped.next);
      }
    }
  }

  lemma FlatSliceAlike(codec: Codec, s: Bytes, at: nat, start: Option<int>, end: Option<int>)
    requires at <= |s| && !SliceAt(codec, s, at, start, end, false).Unmodelled?
    ensures SliceAt(codec, s, at, start, end, true) == SliceAt(codec, s, at, start, end, false)
  {
    hide HeaderAt, ElementsAt, BypassMany;
    if at + 4 <= |s| {
      match SliceBounds(UInt32At(s, at), start, end)
      case Empty =>
      case Range(from, to) =>
        var skipped := BypassMany(s, at + 4, if from < 0 then 0 else from);
        var n := if from < 0 then to else to - from;
        if skipped.found && n >= 0 {
          FlatElementsAlike(codec, s, skipped.next, n);
        }
    }
  }

  /** A packet holding a written value parses to what arrives of it, by either reader. */
  lemma ReplyOfEncoded(codec: Codec, v: Value, flat: bool)
    requires Fits(codec, v)
    ensures Complete(Encode(codec, v), 0)
    ensures Gives(Reply(codec, Encode(codec, v), Whole, flat), Arrival(codec, v))
  {
    hide Arrival, Fits, ContentAt, HeaderAt, Content, KindOf;
    var s := Encode(codec, v);
    AtWhole(s);
    HeaderOfEncoded(codec, v, s, 0);
    ContentOfEncoded(codec, v, s, HeaderOf(codec, v).headerSize, flat);
  }

  lemma ArrayPacketOfEncoded(codec: Codec, items: seq<Value>)
    requires Fits(codec, Arr(items))
    ensures Complete(Encode(codec, Arr(items)), 0)
    ensures HeaderAt(Encode(codec, Arr(items)), 0).raw.headerSize == 6
    ensures ArrayPacket(codec, items, |items|, Encode(codec, Arr(items)), 6)
  {
    hide HeaderAt, Fits;
    AtWhole(Encode(codec, Arr(items)));
    HeaderOfEncoded(codec, Arr(items), Encode(codec, Arr(items)), 0);
  }

  lemma WrittenCount(items: seq<Value>)
    ensures Padded(items, |items|) == items
  {
  }

  /** Slicing a packet without decoding it is slicing its full parse, exactly outside the bounds
      start < end < -length, on which an exception is thrown; only the elements of the slice are decoded. */
  lemma SliceReplyOfEncoded(codec: Codec, items: seq<Value>, start: Option<int>, end: Option<int>, flat: bool)
    requires Fits(codec, Arr(items))
    ensures Complete(Encode(codec, Arr(items)), 0)
    ensures var slice := JsSlice(items, start, end);
            var r := Reply(codec, Encode(codec, Arr(items)), Slice(start, end), flat);
            && Gives(r, if BeforeTheFirst(|items|, start, end) then None else AsArray(ArrivalAll(codec, slice)))
            && ((forall i :: 0 <= i < |slice| ==> Faithful(codec, slice[i])) && !BeforeTheFirst(|items|, start, end) ==>
                  ValueOf(r) == Some(Arr(slice)))
  {
    hide Encode, Arrival, HeaderAt, SliceAt, ArrayPacket, Faithful, JsSlice, ArrivalAll;
    ArrayPacketOfEncoded(codec, items);
    WrittenCount(items);
    SliceOfEncoded(codec, items, |items|, Encode(codec, Arr(items)), 6, start, end, flat);
    FaithfulArriveAll(codec, JsSlice(items, start, end));
  }

  /** Taking one element without decoding the others is indexing the full parse, exactly when the index
      is not negative, or the array is empty or starts with undefined. */
  lemma ElementReplyOfEncoded(codec: Codec, items: seq<Value>, index: int, flat: bool)
    requires Serialisable(codec, Arr(items))
    ensures Complete(Encode(codec, Arr(items)), 0)
    ensures ValueOf(Reply(codec, Encode(codec, Arr(items)), Element(index), flat)) == Some(JsAt(items, index))
            <==> index >= 0 || items == [] || items[0] == Undefined
  {
    hide Encode, HeaderAt, ElementAt, ArrayPacket;
    ArrayPacketOfEncoded(codec, items);
    ElementIsIndexing(codec, items, Encode(codec, Arr(items)), 6, index, flat);
  }

  /** What any accepted packet answers to parse and parseArrayLength, on its bytes. */
  lemma ReplyExactly(codec: Codec, s: Bytes, flat: bool)
    requires PacketStands(s, 0)
    ensures Complete(s, 0)
    ensures Reply(codec, s, Whole, flat) == Meaning(codec, s, s[1], HeaderLength(s[1]), ContentSize(s, 0).value, flat)
    ensures ValueOf(Reply(codec, s, Length, flat))
            == if HeaderLength(s[1]) + 4 <= |s| then Some(Int(WireBytes.Number(s, HeaderLength(s[1])))) else None
  {
    hide HeaderAt, ContentAt, Meaning;
    HeaderExactly(s, 0);
    ContentExactly(codec, s, s[1], HeaderLength(s[1]), ContentSize(s, 0).value, flat);
  }

  /** parseArrayLength of a written array is its length. */
  lemma LengthReplyOfEncoded(codec: Codec, items: seq<Value>, flat: bool)
    requires Fits(codec, Arr(items))
    ensures Complete(Encode(codec, Arr(items)), 0)
    ensures ValueOf(Reply(codec, Encode(codec, Arr(items)), Length, flat)) == Some(Int(|items|))
  {
    hide Encode, HeaderAt;
    ArrayPacketOfEncoded(codec, items);
    ArrayPacketParts(codec, items, |items|, Encode(codec, Arr(items)), 6);
  }

  /** What a reader of either kind answers is what a flat reader answers, or alike. */
  lemma ReplyAnswered(codec: Codec, s: Bytes, q: Query, flat: bool, v: Option<Value>)
    requires Complete(s, 0) && Answered(flat, Reply(codec, s, q, flat), v)
    ensures flat ==> v == ValueOf(Reply(codec, s, q, true))
    ensures !Reply(codec, s, q, false).Unmodelled? ==> Answered(false, Reply(codec, s, q, true), v)
  {
    hide Reply;
    if !Reply(codec, s, q, false).Unmodelled? {
      RepliesAlike(codec, s, q);
      SameAnswer(false, Reply(codec, s, q, true));
    }
  }

  // ---- the packet over a list of chunks --------------------------------------------------------------

  class IpcPacketBufferList {
    var raw: RawHeader
    var buffers: ChunkList

    ghost function Bytes(): Bytes
      reads this, buffers
    {
      Concat(buffers.items)
    }

    /** The header is the one at the front of the bytes, and the packet is all there. */
    ghost predicate Holds()
      reads this, buffers
    {
      Complete(Bytes(), 0) && raw == HeaderAt(Bytes(), 0).raw
    }

    constructor ()
      ensures raw == InvalidHeader && fresh(buffers) && buffers.items == []
    {
      raw := InvalidHeader;
      buffers := new ChunkList([]);
    }

    /** Takes the next packet off the reader when all of it has arrived; otherwise the reader is where it
        was, with the same bytes. */
    method DecodeFromReader(r: Reader) returns (complete: bool)
      requires r.Valid() && this !in r.Repr()
      modifies this, r.Repr()
      ensures r.Valid() && r.Kept() && fresh(buffers)
      ensures complete == Complete(r.Data(), old(r.Offset()))
      ensures complete ==>
                && Holds() && raw.PacketSize() == |Bytes()|
                && r.Offset() == old(r.Offset()) + raw.PacketSize()
                && Bytes() == r.Data()[old(r.Offset())..r.Offset()]
      ensures !complete ==> r.Offset() == old(r.Offset()) && raw.IsNotValid() && buffers.items == []
    {
      hide Coordinates, HeaderAt, Concat;
      ghost var at := r.Offset();
      raw := PeekHeader(r);
      if raw.contentSize >= 0 {
        var chunks := r.ReadBufferList(raw.PacketSize());
        buffers := new ChunkList(chunks);
        TakenWhole(r.Data(), at, Bytes());
        return true;
      } else {
        buffers := new ChunkList([]);
        return false;
      }
    }

    /** One chunk is read by a flat reader, several by a list reader over the packet's own array. */
    method ParseReader() returns (r: Reader)
      requires Holds()
      ensures r.Valid() && r.Data() == Bytes() && r.Offset() == raw.headerSize
      ensures fresh(r.Repr() - {buffers}) && (r.Flat? <==> |buffers.items| <= 1)
      ensures r.List? ==> r.list.buffers == buffers
      ensures buffers.items == old(buffers.items)
    {
      if |buffers.items| <= 1 {
        if |buffers.items| == 1 {
          assert buffers.items == [buffers.items[0]];
          ConcatOne(buffers.items[0]);
        }
        var flat := new BufferReader(if |buffers.items| == 1 then buffers.items[0] else [], raw.headerSize);
        r := Flat(flat);
      } else {
        var list := new BufferListReader(buffers, raw.headerSize);
        r := List(list);
      }
    }

    /** Parsing through the aliased array is harmless: the list reader splices the packet's own chunks,
        yet the packet's bytes stay. A packet of one chunk answers like a flat packet with the same bytes; a
        packet of several chunks answers alike, up to the payloads of ArrayBuffers, exceptions included. */
    method Ask(codec: Codec, q: Query) returns (v: Option<Value>)
      requires Holds()
      modifies this`buffers, buffers
      ensures Holds() && Bytes() == old(Bytes()) && (buffers == old(buffers) || (fresh(buffers) && q == TheBuffer))
      ensures q == TheBuffer ==> v == Some(Buf(Bytes()))
      ensures |old(buffers.items)| <= 1 ==> v == ValueOf(Reply(codec, Bytes(), q, true))
      ensures !Reply(codec, Bytes(), q, false).Unmodelled? ==> Answered(false, Reply(codec, Bytes(), q, true), v)
    {
      hide Answered, HeaderAt, ContentAt, ElementAt, SliceAt;
      v := Parse(codec, q);
      ReplyAnswered(codec, Bytes(), q, |old(buffers.items)| <= 1, v);
    }

    /** The answer by the packet's own reader. */
    method Parse(codec: Codec, q: Query) returns (v: Option<Value>)
      requires Holds()
      modifies this`buffers, buffers
      ensures Holds() && Bytes() == old(Bytes()) && (buffers == old(buffers) || (fresh(buffers) && q == TheBuffer))
      ensures q == TheBuffer ==> v == Some(Buf(Bytes()))
      ensures var flat := |old(buffers.items)| <= 1;
              Answered(flat, Reply(codec, Bytes(), q, flat), v)
    {
      hide HeaderAt, ContentAt, ElementAt, SliceAt, Coordinates, Alike;
      match q
      case Whole =>
        var r := ParseReader();
        v := ReadContent(codec, r, raw.kind, raw.contentSize);
      case Length =>
        var r := ParseReader();
        var n := ReadContentArrayLength(r);
        v := if n.Some? then Some(Int(n.value)) else None;
        SameAnswer(r.Flat?, Reply(codec, Bytes(), q, r.Flat?));
      case Element(index) =>
        var r := ParseReader();
        v := ReadContentArrayAt(codec, r, index);
      case Slice(start, end) =>
        var r := ParseReader();
        v := ReadContentArraySlice(codec, r, start, end);
      case TheBuffer =>
        ghost var flat := |buffers.items| <= 1;
        var bytes := Buffer();
        v := Some(Buf(bytes));
        SameAnswer(flat, Reply(codec, Bytes(), q, flat));
    }

    /** The buffer getter: several chunks become one, in a new array. */
    method Buffer() returns (bytes: Bytes)
      modifies this`buffers
      ensures bytes == Bytes() == old(Bytes())
      ensures if |old(buffers.items)| <= 1 then buffers == old(buffers) else fresh(buffers) && buffers.items == [bytes]
    {
      if |buffers.items| == 0 {
        return [];
      }
      if |buffers.items| > 1 {
        ConcatOne(Concat(buffers.items));
        buffers := new ChunkList([Concat(buffers.items)]);
      }
      assert buffers.items == [buffers.items[0]];
      ConcatOne(buffers.items[0]);
      bytes := buffers.items[0];
    }

    method Serialize(codec: Codec, v: Value)
      requires Fits(codec, v)
      modifies this
      ensures Holds() && fresh(buffers) && Bytes() == Encode(codec, v) && raw == HeaderOf(codec, v)
    {
      hide Content, KindOf, Fits, HeaderAt, At, Encode;
      AtWhole(Encode(codec, v));
      var writer := new ListWriter(InMemory, null);
      raw := Write(codec, writer, v);
      assert [] + Encode(codec, v) == Encode(codec, v);
      buffers := new ChunkList(writer.buffers);
      HeaderOfEncoded(codec, v, Encode(codec, v), 0);
    }
  }

  // ---- the packet over one buffer ------------------------------------------------------------------

  class IpcPacketBuffer {
    var raw: RawHeader
    var buffer: Bytes

    ghost predicate Holds()
      reads this
    {
      Complete(buffer, 0) && raw == HeaderAt(buffer, 0).raw
    }

    constructor ()
      ensures raw == InvalidHeader && buffer == []
    {
      raw := InvalidHeader;
      buffer := [];
    }

    method DecodeFromReader(r: Reader) returns (complete: bool)
      requires r.Valid() && this !in r.Repr()
      modifies this, r.Repr()
      ensures r.Valid() && r.Kept()
      ensures complete == Complete(r.Data(), old(r.Offset()))
      ensures complete ==>
                && Holds() && raw.PacketSize() == |buffer|
                && r.Offset() == old(r.Offset()) + raw.PacketSize()
                && buffer == r.Data()[old(r.Offset())..r.Offset()]
      ensures !complete ==> r.Offset() == old(r.Offset()) && raw.IsNotValid() && buffer == []
    {
      hide Coordinates, HeaderAt, Concat;
      ghost var at := r.Offset();
      raw := PeekHeader(r);
      if raw.contentSize >= 0 {
        buffer := r.ReadBuffer(raw.PacketSize());
        TakenWhole(r.Data(), at, buffer);
        return true;
      } else {
        buffer := [];
        return false;
      }
    }

    /** The packet keeps the whole buffer, whatever follows the packet in it. */
    method DecodeFromBuffer(buffer: Bytes) returns (complete: bool)
      modifies this
      ensures complete == Complete(buffer, 0)
      ensures if complete then Holds() && this.buffer == buffer else raw.IsNotValid() && this.buffer == []
    {
      var flat := new BufferReader(buffer, 0);
      raw := ReadHeader(Flat(flat));
      complete := raw.contentSize >= 0;
      this.buffer := if complete then buffer else [];
    }

    method Ask(codec: Codec, q: Query) returns (v: Option<Value>)
      requires Holds()
      ensures v == ValueOf(Reply(codec, buffer, q, true))
      ensures q == TheBuffer ==> v == Some(Buf(buffer))
    {
      hide HeaderAt, ContentAt, ElementAt, SliceAt, Coordinates;
      var flat := new BufferReader(buffer, raw.headerSize);
      var r := Flat(flat);
      match q
      case Whole => v := ReadContent(codec, r, raw.kind, raw.contentSize);
      case Length =>
        var n := ReadContentArrayLength(r);
        v := if n.Some? then Some(Int(n.value)) else None;
      case Element(index) => v := ReadContentArrayAt(codec, r, index);
      case Slice(start, end) => v := ReadContentArraySlice(codec, r, start, end);
      case TheBuffer => v := Some(Buf(buffer));
    }

    method Serialize(codec: Codec, v: Value)
      requires Fits(codec, v)
      modifies this
      ensures Holds() && buffer == Encode(codec, v) && raw == HeaderOf(codec, v)
    {
      hide Content, KindOf, Fits, HeaderAt, At, Encode;
      AtWhole(Encode(codec, v));
      var writer := new ListWriter(InMemory, null);
      raw := Write(codec, writer, v);
      assert [] + Encode(codec, v) == Encode(codec, v);
      buffer := writer.Buffer();
      HeaderOfEncoded(codec, v, Encode(codec, v), 0);
    }
  }

  /** The answer a of a list packet where a flat packet answers b: an exception together, and otherwise the
      same value, up to the payloads of ArrayBuffers. */
  predicate Agree(a: Option<Value>, b: Option<Value>) {
    if b.None? then a.None? else a.Some? && Alike(b.value, a.value) && (NoPayload(b.value) ==> a == b)
  }

  lemma AnswersAgree(out: Outcome<Value>, a: Option<Value>)
    requires Answered(false, out, a)
    ensures Agree(a, ValueOf(out))
  {
    if out.Ok? && NoPayload(out.value) {
      AlikeIsSame(out.value, a.value);
    }
  }

  /** Any sequence of questions, those that throw included: however the first ones rearrange the chunks of
      the list packet, it agrees on each question with a flat packet that has the same bytes. */
  method AskBoth(codec: Codec, list: IpcPacketBufferList, flat: IpcPacketBuffer, queries: seq<Query>)
    returns (fromList: seq<Option<Value>>, fromFlat: seq<Option<Value>>)
    requires list.Holds() && flat.Holds() && flat.buffer == list.Bytes()
    modifies list`buffers, list.buffers
    ensures |fromList| == |fromFlat| == |queries|
    ensures forall i :: 0 <= i < |queries| && !Reply(codec, flat.buffer, queries[i], false).Unmodelled? ==>
                          Agree(fromList[i], fromFlat[i])
    ensures list.Holds() && list.Bytes() == flat.buffer
  {
    hide HeaderAt, Reply, Concat, Agree, Answered;
    fromList, fromFlat := [], [];
    var i := 0;
    while i < |queries|
      invariant i <= |queries| && |fromList| == |fromFlat| == i
      invariant forall k :: 0 <= k < i && !Reply(codec, flat.buffer, queries[k], false).Unmodelled? ==>
                              Agree(fromList[k], fromFlat[k])
      invariant list.Holds() && flat.Holds() && list.Bytes() == flat.buffer == old(flat.buffer)
      invariant list.buffers == old(list.buffers) || fresh(list.buffers)
    {
      var a := list.Ask(codec, queries[i]);
      var b := flat.Ask(codec, queries[i]);
      if !Reply(codec, flat.buffer, queries[i], false).Unmodelled? {
        AnswersAgree(Reply(codec, flat.buffer, queries[i], true), a);
      }
      fromList, fromFlat := fromList + [a], fromFlat + [b];
      i := i + 1;
    }
  }
}

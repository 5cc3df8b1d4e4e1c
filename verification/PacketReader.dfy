/** src/packet/ipcPacketReader.ts: decoding packets over either reader. Every method is proved against
    the function of the flat byte string that says what it reads. */
module PacketReading {
  import opened ByteStrings
  import opened Codecs
  import opened ListReading
  import opened FlatReading
  import opened Reading
  import opened Headers
  import opened Format
  import opened RoundTrips
  import opened ArrayAccess

  function ValueOf(out: Outcome<Value>): Option<Value> {
    if out.Ok? then Some(out.value) else None
  }

  /** v is the value x of the flat bytes, up to the payloads of ArrayBuffers when a list reader read it. */
  predicate Same(flat: bool, x: Value, v: Value) {
    if flat then x == v else Alike(x, v)
  }

  predicate AllSame(flat: bool, xs: seq<Value>, vs: seq<Value>) {
    if flat then xs == vs else AllAlike(xs, vs)
  }

  /** None is an exception, or what is not modelled. */
  predicate Answered(flat: bool, out: Outcome<Value>, v: Option<Value>) {
    match out
    case Ok(x, _) => v.Some? && Same(flat, x, v.value)
    case _ => v == None
  }

  predicate AllAnswered(flat: bool, out: Outcome<seq<Value>>, vs: Option<seq<Value>>) {
    match out
    case Ok(xs, _) => vs.Some? && AllSame(flat, xs, vs.value)
    case _ => vs == None
  }

  /** After an answer the cursor stands behind what was read. */
  ghost predicate Behind<T>(r: Reader, out: Outcome<T>)
    reads r.Repr()
  {
    out.Ok? ==> r.Valid() && r.Offset() == out.next
  }

  ghost predicate Answers(r: Reader, out: Outcome<Value>, v: Option<Value>)
    reads r.Repr()
  {
    Answered(r.Flat?, out, v) && Behind(r, out)
  }

  lemma SameAnswer(flat: bool, out: Outcome<Value>)
    ensures Answered(flat, out, ValueOf(out))
  {
    if out.Ok? {
      AlikeItself(out.value);
    }
  }

  method Read(codec: Codec, r: Reader) returns (v: Option<Value>)
    requires r.Valid()
    modifies r.Repr()
    ensures r.Kept()
    ensures Answers(r, ReadAt(codec, r.Data(), old(r.Offset()), r.Flat?), v)
    decreases |r.Data()| - r.Offset(), 0, 0
  {
    hide HeaderAt, ContentAt, Coordinates;
    var raw := ReadHeader(r);
    if raw.contentSize >= 0 {
      v := ReadContent(codec, r, raw.kind, raw.contentSize);
      if v.Some? {
        var _ := r.Skip(FooterLength);
      }
    } else {
      v := Some(Undefined);
    }
  }

  /** The switch of readContent; its cases without elements are in ReadScalar. */
  method ReadContent(codec: Codec, r: Reader, kind: nat, size: nat) returns (v: Option<Value>)
    requires r.Valid() && r.Offset() + size < |r.Data()|
    modifies r.Repr()
    ensures r.Kept()
    ensures Answers(r, ContentAt(codec, r.Data(), old(r.Offset()), kind, size, r.Flat?), v)
    decreases |r.Data()| - r.Offset(), 1, 0
  {
    hide Coordinates, ElementsAt, HeaderAt, BinaryAt, Evolved, Alike;
    ghost var at := r.Offset();
    if kind == ArrayWithSize {
      v := ReadContentArray(codec, r);
    } else if kind == ArrayBufferWithSize {
      v := ReadContentAnyArrayBuffer(r, size);
    } else {
      v := ReadScalar(codec, r, kind, size);
      SameAnswer(r.Flat?, ContentAt(codec, r.Data(), at, kind, size, r.Flat?));
    }
  }

  method ReadScalar(codec: Codec, r: Reader, kind: nat, size: nat) returns (v: Option<Value>)
    requires r.Valid() && r.Offset() + size < |r.Data()|
    requires kind != ArrayWithSize && kind != ArrayBufferWithSize
    modifies r.Repr()
    ensures r.Kept()
    ensures var out := ContentAt(codec, r.Data(), old(r.Offset()), kind, size, r.Flat?);
            v == ValueOf(out) && Behind(r, out)
  {
    hide Coordinates, ElementsAt, HeaderAt, BinaryAt, UInt32At;
    if kind == StringType || kind == BufferType || kind == ObjectStringify {
      v := ReadSized(codec, r, kind, size);
    } else if kind == DoubleType || kind == DateType {
      var raw := r.ReadNumber(8);
      v := if raw.None? then None else if kind == DoubleType then Some(Double(raw.value)) else Some(Date(raw.value));
    } else if kind == NegativeInteger || kind == PositiveInteger {
      var n := r.ReadUInt32();
      v := if n.None? then None else Some(Int(Signed(kind == NegativeInteger, n.value)));
    } else if kind == BooleanTrue {
      v := Some(Bool(true));
    } else if kind == BooleanFalse {
      v := Some(Bool(false));
    } else if kind == NullType {
      v := Some(Null);
    } else {
      v := Some(Undefined);
    }
  }

  /** _readContentString, readBuffer and _readContentObject. */
  method ReadSized(codec: Codec, r: Reader, kind: nat, size: nat) returns (v: Option<Value>)
    requires r.Valid() && r.Offset() + size < |r.Data()|
    requires kind == StringType || kind == BufferType || kind == ObjectStringify
    modifies r.Repr()
    ensures r.Kept()
    ensures var out := ContentAt(codec, r.Data(), old(r.Offset()), kind, size, r.Flat?);
            v == ValueOf(out) && Behind(r, out)
  {
    hide Coordinates, ElementsAt, HeaderAt, BinaryAt, Evolved;
    if kind == StringType {
      var text := r.ReadString(codec, Some(size));
      v := Some(Str(text));
    } else if kind == BufferType {
      var bytes := r.ReadBuffer(size);
      v := Some(Buf(bytes));
    } else {
      var text := r.ReadString(codec, Some(size));
      var o := codec.parse(text);
      v := if o.Some? then Some(Obj(o.value)) else None;
    }
  }

  function Signed(negative: bool, n: nat): int {
    var m: int := n;
    if negative then -m else m
  }

  /** Where a list reader takes the payload from, when its cursor is at the short code: behind it if the
      code ends its chunk, and otherwise from the start of that chunk. */
  ghost function PayloadPlace(l: BufferListReader): int
    requires l.Valid() && l.offset < l.length
    reads l, l.buffers
  {
    CoordinatesInRange(l.buffers.items, l.offset, l.curBufferIndex, l.curBufferOffset);
    if l.curBufferOffset + 1 == |l.buffers.items[l.curBufferIndex]| then l.offset + 1 else l.offset - l.curBufferOffset
  }

  /** Over a list reader the code, the length, the exception and the cursor are those of the flat bytes; the
      payload is what stands at PayloadPlace. */
  method ReadContentAnyArrayBuffer(r: Reader, size: nat) returns (v: Option<Value>)
    requires r.Valid() && r.Offset() + size < |r.Data()|
    modifies r.Repr()
    ensures r.Kept()
    ensures Answers(r, if r.Flat? || size > 0 then BinaryAt(r.Data(), old(r.Offset()), size) else Unmodelled, v)
    ensures r.List? && v.Some? && v.value.Binary? ==>
              var place := old(PayloadPlace(r.list));
              0 <= place <= old(r.Offset()) + 1 && v.value.data == r.Data()[place..place + size - 1]
  {
    hide Coordinates, Concat, Alike;
    match r
    case List(l) =>
      if size == 0 {
        return None;  // not modelled
      }
      v := ListArrayBuffer(l, size);
    case Flat(f) => v := FlatArrayBuffer(f, size);
  }

  method FlatArrayBuffer(f: BufferReader, size: nat) returns (v: Option<Value>)
    requires f.Valid() && f.offset + size < |f.buffer|
    modifies f`offset
    ensures Answers(Flat(f), BinaryAt(f.buffer, old(f.offset), size), v)
  {
    var byte := f.ReadByte();
    var data := f.ReadArrayBuffer(size - 1);
    v := TypedArray(byte.value as nat, data);
  }

  method ListArrayBuffer(l: BufferListReader, size: nat) returns (v: Option<Value>)
    requires l.Valid() && 0 < size && l.offset + size < l.length
    modifies l, l.buffers
    ensures List(l).Kept()
    ensures Answers(List(l), BinaryAt(l.Bytes(), old(l.offset), size), v)
    ensures v.Some? && v.value.Binary? ==>
              var place := old(PayloadPlace(l));
              0 <= place <= old(l.offset) + 1 && v.value.data == l.Bytes()[place..place + size - 1]
  {
    hide Coordinates, Concat, Evolved, Good;
    var code, data := CodeAndPayload(l, size);
    v := TypedArray(code, data);
  }

  /** The two reads of ListArrayBuffer. */
  method CodeAndPayload(l: BufferListReader, size: nat) returns (code: nat, data: Bytes)
    requires l.Valid() && 0 < size && l.offset + size < l.length
    modifies l, l.buffers
    ensures l.Valid() && l.Grew() && l.Bytes() == old(l.Bytes()) && l.offset == old(l.offset) + size
    ensures 0 <= old(l.offset) && l.offset < |l.Bytes()| && code == l.Bytes()[old(l.offset)] as nat
    ensures |data| == size - 1
    ensures var place := old(PayloadPlace(l));
            0 <= place <= old(l.offset) + 1 && data == l.Bytes()[place..place + size - 1]
  {
    hide Coordinates, Concat, Merged, MergeEnd;
    CoordinatesInRange(l.buffers.items, l.offset, l.curBufferIndex, l.curBufferOffset);
    var byte := l.ReadByte();
    CoordinatesInRange(l.buffers.items, l.offset, l.curBufferIndex, l.curBufferOffset);
    var payload := l.ReadArrayBuffer(size - 1);
    code, data := byte.value as nat, payload.value;
  }

  /** The packet of the ArrayBuffer [7, 8], with its footer in a second chunk: a list reader returns the
      first two bytes of the header instead. */
  method MisreadPayload(codec: Codec) returns (chunks: seq<Bytes>, v: Option<Value>)
    ensures |chunks| == 2 && Concat(chunks) == Encode(codec, Binary(0, [7, 8]))
    ensures v == Some(Binary(0, [0x5b, 0x43]))
  {
    hide Encode;
    var first, second := [0x5b, 0x43, 3, 0, 0, 0, 0, 7, 8], [0x5d];
    chunks := [first, second];
    BinaryImage(codec);
    TwoChunks(first, second);
    var items := new ChunkList(chunks);
    var list := new BufferListReader(items, DynamicHeaderSize);
    assert list.curBufferIndex == 0 && list.curBufferOffset == DynamicHeaderSize;
    assert list.Bytes() == first + second;
    assert list.Bytes()[0..2] == [0x5b, 0x43];
    v := ReadContentAnyArrayBuffer(List(list), 3);
  }

  /** The end of _readContentAnyArrayBuffer: the bytes as they are, or as a typed array. */
  method TypedArray(code: nat, data: Bytes) returns (v: Option<Value>)
    ensures v == if ElementSize(code).None? then Some(Undefined)
                 else if |data| % ElementSize(code).value != 0 then None else Some(Binary(code, data))
  {
    if ElementSize(code).None? {
      return Some(Undefined);
    }
    if |data| % ElementSize(code).value != 0 {
      return None;  // a RangeError: the length is not a multiple of the element size
    }
    v := Some(Binary(code, data));
  }

  method ReadContentArray(codec: Codec, r: Reader) returns (v: Option<Value>)
    requires r.Valid()
    modifies r.Repr()
    ensures r.Kept()
    ensures old(r.Offset()) + 4 > |r.Data()| ==> v == None
    ensures old(r.Offset()) + 4 <= |r.Data()| ==>
              Answers(r, Collected(ElementsAt(codec, r.Data(), old(r.Offset()) + 4, UInt32At(r.Data(), old(r.Offset())),
                                              r.Flat?)), v)
    decreases |r.Data()| - r.Offset(), 0, 0
  {
    hide ElementsAt, HeaderAt, Coordinates;
    var count := r.ReadUInt32();
    if count.None? {
      return None;
    }
    var args := ReadElements(codec, r, count.value);
    v := if args.Some? then Some(Arr(args.value)) else None;
  }

  /** The loop of _readContentArray and of readContentArraySlice. */
  method ReadElements(codec: Codec, r: Reader, n: nat) returns (args: Option<seq<Value>>)
    requires r.Valid()
    modifies r.Repr()
    ensures r.Kept()
    ensures var out := ElementsAt(codec, r.Data(), old(r.Offset()), n, r.Flat?);
            AllAnswered(r.Flat?, out, args) && Behind(r, out)
    decreases |r.Data()| - r.Offset(), 2, n
  {
    hide HeaderAt, ReadAt, Coordinates;
    ghost var s, at := r.Data(), r.Offset();
    var done: seq<Value> := [];
    ghost var read: seq<Value> := [];
    BeforeNothing(ElementsAt(codec, s, at, n, r.Flat?));
    var argIndex := 0;
    while argIndex < n
      invariant argIndex <= n && r.Valid() && r.Kept() && at <= r.Offset()
      invariant ElementsAt(codec, s, at, n, r.Flat?)
                == Before(read, ElementsAt(codec, s, r.Offset(), n - argIndex, r.Flat?))
      invariant AllSame(r.Flat?, read, done)
    {
      ghost var here := r.Offset();
      var arg := Read(codec, r);
      if arg.None? {
        return None;
      }
      BeforeStep(codec, s, here, n - argIndex, r.Flat?, read);
      OneMoreSame(r.Flat?, read, done, ReadAt(codec, s, here, r.Flat?).value, arg.value);
      read, done := read + [ReadAt(codec, s, here, r.Flat?).value], done + [arg.value];
      argIndex := argIndex + 1;
    }
    assert ElementsAt(codec, s, r.Offset(), 0, r.Flat?) == Ok([], r.Offset());
    assert read + [] == read;
    args := Some(done);
  }

  lemma OneMoreSame(flat: bool, xs: seq<Value>, vs: seq<Value>, x: Value, v: Value)
    requires AllSame(flat, xs, vs) && Same(flat, x, v)
    ensures AllSame(flat, xs + [x], vs + [v])
  {
    hide Alike;
  }

  lemma BeforeNothing(out: Outcome<seq<Value>>)
    ensures Before([], out) == out
  {
    if out.Ok? {
      assert [] + out.value == out.value;
    }
  }

  lemma BeforeStep(codec: Codec, s: Bytes, at: nat, n: nat, flat: bool, done: seq<Value>)
    requires at <= |s| && 0 < n && ReadAt(codec, s, at, flat).Ok?
    ensures var first := ReadAt(codec, s, at, flat);
            Before(done, ElementsAt(codec, s, at, n, flat))
            == Before(done + [first.value], ElementsAt(codec, s, first.next, n - 1, flat))
  {
    var first := ReadAt(codec, s, at, flat);
    var rest := ElementsAt(codec, s, first.next, n - 1, flat);
    if rest.Ok? {
      assert done + ([first.value] + rest.value) == done + [first.value] + rest.value;
    }
  }

  method ByPass(r: Reader) returns (found: bool)
    requires r.Valid()
    modifies r.Repr()
    ensures r.Valid() && r.Kept()
    ensures Bypassed(found, r.Offset()) == BypassAt(r.Data(), old(r.Offset()))
  {
    var raw := ReadHeader(r);
    if raw.contentSize >= 0 {
      var _ := r.Skip(raw.contentSize + FooterLength);
      return true;
    }
    return false;
  }

  /** The skipping loop of readContentArrayAt and readContentArraySlice. */
  method ByPassMany(r: Reader, n: nat) returns (found: bool)
    requires r.Valid()
    modifies r.Repr()
    ensures r.Valid() && r.Kept()
    ensures Bypassed(found, r.Offset()) == BypassMany(r.Data(), old(r.Offset()), n)
  {
    hide HeaderAt, BypassAt, Coordinates;
    ghost var s, at := r.Data(), r.Offset();
    var index := n;
    while index > 0
      invariant 0 <= index <= n && r.Valid() && r.Kept()
      invariant BypassMany(s, at, n) == BypassMany(s, r.Offset(), index)
    {
      var present := ByPass(r);
      if !present {
        return false;
      }
      index := index - 1;
    }
    return true;
  }

  method ReadContentArrayLength(r: Reader) returns (n: Option<nat>)
    requires r.Valid()
    modifies r.Repr()
    ensures r.Kept()
    ensures n == if old(r.Offset()) + 4 <= |r.Data()| then Some(UInt32At(r.Data(), old(r.Offset()))) else None
  {
    n := r.ReadUInt32();
  }

  method ReadContentArrayAt(codec: Codec, r: Reader, index: int) returns (v: Option<Value>)
    requires r.Valid()
    modifies r.Repr()
    ensures r.Kept()
    ensures Answers(r, ElementAt(codec, r.Data(), old(r.Offset()), index, r.Flat?), v)
  {
    hide HeaderAt, ReadAt, BypassMany, Coordinates;
    var argsLen := r.ReadUInt32();
    if argsLen.None? {
      return None;
    }
    if index >= argsLen.value {
      return Some(Undefined);
    }
    var found := ByPassMany(r, if index < 0 then 0 else index);
    if !found {
      return Some(Undefined);
    }
    v := Read(codec, r);
  }

  method ReadContentArraySlice(codec: Codec, r: Reader, start: Option<int>, end: Option<int>)
    returns (v: Option<Value>)
    requires r.Valid()
    modifies r.Repr()
    ensures r.Kept()
    ensures Answers(r, SliceAt(codec, r.Data(), old(r.Offset()), start, end, r.Flat?), v)
  {
    hide HeaderAt, RangeAt, Coordinates;
    var argsLen := r.ReadUInt32();
    if argsLen.None? {
      return None;
    }
    var bounds := AdjustBounds(argsLen.value, start, end);
    match bounds
    case Empty => v := Some(Arr([]));
    case Range(from, to) => v := ReadRange(codec, r, from, to);
  }

  /** The adjustment of start and end in readContentArraySlice. */
  method AdjustBounds(argsLen: nat, start: Option<int>, end: Option<int>) returns (bounds: Bounds)
    ensures bounds == SliceBounds(argsLen, start, end)
  {
    var from: int := 0;
    if start.Some? {
      from := if start.value < 0 then argsLen + start.value else start.value;
    }
    if from >= argsLen {
      return Empty;
    }
    var to: int := argsLen;
    if end.Some? {
      to := if end.value < 0 then argsLen + end.value else if end.value < argsLen then end.value else argsLen;
    }
    if to <= from {
      return Empty;
    }
    return Range(from, to);
  }

  /** The second half of readContentArraySlice. */
  method ReadRange(codec: Codec, r: Reader, from: int, to: int) returns (v: Option<Value>)
    requires r.Valid()
    modifies r.Repr()
    ensures r.Kept()
    ensures Answers(r, RangeAt(codec, r.Data(), old(r.Offset()), from, to, r.Flat?), v)
  {
    hide HeaderAt, BypassMany, ElementsAt, Coordinates;
    var end := to;
    var found := ByPassMany(r, if from < 0 then 0 else from);
    if !found {
      return Some(Undefined);
    }
    if from > 0 {
      end := to - from;
    }
    if end < 0 {
      return None;  // a RangeError: the array length is negative
    }
    var args := ReadElements(codec, r, end);
    v := if args.Some? then Some(Arr(args.value)) else None;
  }
}

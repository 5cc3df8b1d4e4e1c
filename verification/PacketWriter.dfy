/** src/packet/ipcPacketWriter.ts and src/packet/ipcPacketWriterSize.ts. */
module PacketWriting {
  import opened ByteStrings
  import opened Codecs
  import opened Headers
  import opened Format
  import opened RoundTrips
  import opened Writing

  /** The numeric argument of _writeFixedContent: none, an unsigned integer, or the 8 bytes of a double. */
  datatype Fixed = NoNumber | Unsigned(n: nat) | EightBytes(raw: Bytes)
  {
    function Bytes(): Bytes {
      match this
      case NoNumber => []
      case Unsigned(n) => UInt32(n)
      case EightBytes(raw) => raw
    }
  }

  lemma {:induction false} EncodeAllPush(codec: Codec, vs: seq<Value>, v: Value)
    ensures EncodeAll(codec, vs + [v]) == EncodeAll(codec, vs) + Encode(codec, v)
  {
    if vs == [] {
      assert vs + [v] == [v] && [v][1..] == [];
    } else {
      assert (vs + [v])[0] == vs[0] && (vs + [v])[1..] == vs[1..] + [v];
      EncodeAllPush(codec, vs[1..], v);
    }
  }

  lemma OneMore(codec: Codec, items: seq<Value>, i: nat, base: Bytes)
    requires i < |items|
    ensures base + EncodeAll(codec, items[..i + 1]) == base + EncodeAll(codec, items[..i]) + Encode(codec, items[i])
    ensures |EncodeAll(codec, items[..i + 1])| == |EncodeAll(codec, items[..i])| + |Encode(codec, items[i])|
  {
    EncodeAllPush(codec, items[..i], items[i]);
    assert items[..i + 1] == items[..i] + [items[i]];
  }

  /** Header, content and footer of a fixed-size packet, built in one buffer. */
  method AllInOne(kind: nat, num: Fixed) returns (packet: Bytes)
    ensures packet == UInt16(kind) + num.Bytes() + [FooterSeparator]
  {
    var writer := new BufferWriter(FixedHeaderSize + |num.Bytes()| + FooterLength);
    writer.WriteUInt16(kind);
    match num {
      case NoNumber =>
      case Unsigned(n) => writer.WriteUInt32(n);
      case EightBytes(raw) => writer.WriteBytes(raw);
    }
    writer.WriteByte(FooterSeparator);
    assert writer.buffer[..writer.offset] == writer.buffer[..];
    packet := writer.buffer[..];
  }

  method WriteFixedContent(w: ListWriter, kind: nat, num: Fixed) returns (raw: RawHeader)
    requires w.Valid() && !IsDynamic(kind)
    modifies w, w.socket
    ensures w.Wrote(Frame(kind, num.Bytes())) && w.Settled()
    ensures raw == RawHeader(kind, FixedHeaderSize, |num.Bytes()|)
  {
    var packet := AllInOne(kind, num);
    assert packet == Frame(kind, num.Bytes());
    w.PushContext();
    w.AppendBuffer(packet);
    w.PopContext();
    raw := RawHeader(kind, FixedHeaderSize, |packet| - FixedHeaderSize - FooterLength);
  }

  method WriteDynamicBuffer(w: ListWriter, kind: nat, content: Bytes) returns (raw: RawHeader)
    requires w.Valid() && IsDynamic(kind)
    modifies w, w.socket
    ensures w.Wrote(Frame(kind, content)) && w.Settled()
    ensures raw == RawHeader(kind, DynamicHeaderSize, |content|)
  {
    ghost var produced, pending := w.Produced(), w.Pending();
    w.PushContext();
    w.WriteUInt16(kind);
    w.WriteUInt32(|content|);
    w.AppendBuffer(content);
    w.AppendBuffer([FooterSeparator]);
    w.PopContext();
    FrameInPieces(produced, kind, content);
    FrameInPieces(pending, kind, content);
    raw := RawHeader(kind, DynamicHeaderSize, |content|);
  }

  lemma FrameInPieces(before: Bytes, kind: nat, content: Bytes)
    requires IsDynamic(kind)
    ensures before + UInt16(kind) + UInt32(|content|) + content + [FooterSeparator] == before + Frame(kind, content)
  {
  }

  method WriteDynamicContent(w: ListWriter, kind: nat, writerContent: ListWriter) returns (raw: RawHeader)
    requires w.Valid() && IsDynamic(kind)
    requires writerContent != w && writerContent.Valid() && writerContent.strategy.InMemory?
    modifies w, w.socket
    ensures w.Wrote(Frame(kind, old(writerContent.Pending()))) && w.Settled()
    ensures raw == RawHeader(kind, DynamicHeaderSize, |old(writerContent.Pending())|)
  {
    ghost var produced, pending, content := w.Produced(), w.Pending(), writerContent.Pending();
    var contentSize := writerContent.length;
    w.PushContext();
    w.WriteUInt16(kind);
    w.WriteUInt32(contentSize);
    w.Write(writerContent);
    w.AppendBuffer([FooterSeparator]);
    w.PopContext();
    FrameInPieces(produced, kind, content);
    FrameInPieces(pending, kind, content);
    raw := RawHeader(kind, DynamicHeaderSize, contentSize);
  }

  /** Every writer strategy puts exactly the encoding of the value on the wire or behind what waits, and
      the callback gets the header that HeaderOf describes. */
  method Write(codec: Codec, w: ListWriter, v: Value) returns (raw: RawHeader)
    requires w.Valid() && Fits(codec, v)
    modifies w, w.socket
    ensures w.Wrote(Encode(codec, v)) && w.Settled()
    ensures raw == HeaderOf(codec, v)
    decreases v, 1
  {
    hide UInt16, UInt32, Concat, EncodeAll, Frame, IsDynamic;
    DynamicKinds(v);
    match v
    case Null => raw := WriteFixedContent(w, NullType, NoNumber);
    case Undefined => raw := WriteFixedContent(w, UndefinedType, NoNumber);
    case Bool(b) => raw := WriteFixedContent(w, if b then BooleanTrue else BooleanFalse, NoNumber);
    case Int(n) => raw := WriteNumber(codec, w, Some(n), []);
    case Double(bytes) => raw := WriteNumber(codec, w, None, bytes);
    case Date(bytes) => raw := WriteFixedContent(w, DateType, EightBytes(bytes));
    case Str(text) => raw := WriteDynamicBuffer(w, StringType, codec.encodeText(text));
    case Buf(bytes) => raw := WriteDynamicBuffer(w, BufferType, bytes);
    case Obj(o) => raw := WriteDynamicBuffer(w, ObjectStringify, codec.encodeText(codec.stringify(o)));
    case Binary(code, data) => raw := WriteBinary(w, code, data);
    case Arr(items) => raw := WriteArray(codec, w, items);
  }

  /** The value a JavaScript number is written as: an integer of at most 32 bits and a sign, or a double. */
  function NumberValue(whole: Option<int>, raw: Bytes): Value {
    if whole.Some? && -0x1_0000_0000 < whole.value < 0x1_0000_0000 then Int(whole.value) else Double(raw)
  }

  /** _writeNumber, on a number that is the integer whole, if it is one, and takes the bytes raw as a double. */
  method WriteNumber(codec: Codec, w: ListWriter, whole: Option<int>, raw: Bytes) returns (header: RawHeader)
    requires w.Valid() && (NumberValue(whole, raw).Double? ==> |raw| == 8)
    modifies w, w.socket
    ensures w.Wrote(Encode(codec, NumberValue(whole, raw))) && w.Settled()
    ensures header == HeaderOf(codec, NumberValue(whole, raw))
  {
    hide Frame, UInt32, Concat;
    DynamicKinds(NumberValue(whole, raw));
    if whole.Some? {
      var absDataNumber := Abs(whole.value);
      if absDataNumber <= 0xFFFFFFFF {
        if whole.value < 0 {
          header := WriteFixedContent(w, NegativeInteger, Unsigned(absDataNumber));
        } else {
          header := WriteFixedContent(w, PositiveInteger, Unsigned(absDataNumber));
        }
        return;
      }
    }
    header := WriteFixedContent(w, DoubleType, EightBytes(raw));
  }

  /** _writeArrayBuffer (code 0) and _writeTypedArray. */
  method WriteBinary(w: ListWriter, code: nat, data: Bytes) returns (raw: RawHeader)
    requires w.Valid()
    modifies w, w.socket
    ensures w.Wrote(Frame(ArrayBufferWithSize, [(code % 256) as Byte] + data)) && w.Settled()
    ensures raw == RawHeader(ArrayBufferWithSize, DynamicHeaderSize, 1 + |data|)
  {
    var contentWriter := BinaryContent(code, data);
    raw := WriteDynamicContent(w, ArrayBufferWithSize, contentWriter);
  }

  method BinaryContent(code: nat, data: Bytes) returns (content: ListWriter)
    ensures fresh(content) && content.Valid() && content.strategy.InMemory?
    ensures content.Pending() == [(code % 256) as Byte] + data
  {
    content := new ListWriter(InMemory, null);
    content.AppendBuffer([(code % 256) as Byte]);
    content.AppendBuffer(data);
  }

  method WriteArray(codec: Codec, w: ListWriter, items: seq<Value>) returns (raw: RawHeader)
    requires w.Valid() && forall i :: 0 <= i < |items| ==> Fits(codec, items[i])
    modifies w, w.socket
    ensures w.Wrote(Frame(ArrayWithSize, UInt32(|items|) + EncodeAll(codec, items))) && w.Settled()
    ensures raw == RawHeader(ArrayWithSize, DynamicHeaderSize, 4 + |EncodeAll(codec, items)|)
    decreases items, 1
  {
    hide UInt16, UInt32, EncodeAll, Fits;
    var contentWriter := new ListWriter(InMemory, null);
    contentWriter.WriteUInt32(|items|);
    WriteElements(codec, contentWriter, items);
    assert contentWriter.Pending() == UInt32(|items|) + EncodeAll(codec, items);
    raw := WriteDynamicContent(w, ArrayWithSize, contentWriter);
  }

  /** The loop of _writeArray. */
  method WriteElements(codec: Codec, content: ListWriter, items: seq<Value>)
    requires content.Valid() && content.strategy.InMemory?
    requires forall i :: 0 <= i < |items| ==> Fits(codec, items[i])
    modifies content
    ensures content.Valid() && content.Pending() == old(content.Pending()) + EncodeAll(codec, items)
    decreases items, 0
  {
    ghost var base := content.Pending();
    var i := 0;
    while i < |items|
      invariant i <= |items| && content.Valid()
      invariant content.Pending() == base + EncodeAll(codec, items[..i])
    {
      var _ := Write(codec, content, items[i]);
      OneMore(codec, items, i, base);
      i := i + 1;
    }
    assert items[..i] == items;
  }

  // ---- the size-only writer -----------------------------------------------------------------------

  /** What the size-only writer needs of a value: it has no field that could overflow. */
  predicate Measurable(v: Value) {
    match v
    case Double(raw) => |raw| == 8
    case Date(raw) => |raw| == 8
    case Binary(code, _) => Writable(code)
    case Arr(items) => forall i :: 0 <= i < |items| ==> Measurable(items[i])
    case _ => true
  }

  lemma {:induction false} FitsIsMeasurable(codec: Codec, v: Value)
    requires Fits(codec, v)
    ensures Measurable(v)
  {
    if v.Arr? {
      forall i | 0 <= i < |v.items| ensures Measurable(v.items[i]) {
        FitsIsMeasurable(codec, v.items[i]);
      }
    }
  }

  /** The bytes the texts of v are written as: its strings and its stringified objects. */
  function TextBytes(codec: Codec, v: Value): nat {
    match v
    case Str(text) => |codec.encodeText(text)|
    case Obj(o) => |codec.encodeText(codec.stringify(o))|
    case Arr(items) => TextBytesAll(codec, items)
    case _ => 0
  }

  function TextBytesAll(codec: Codec, vs: seq<Value>): nat {
    if vs == [] then 0 else TextBytes(codec, vs[0]) + TextBytesAll(codec, vs[1..])
  }

  /** What Buffer.byteLength announces for the same texts. */
  function Announced(codec: Codec, v: Value): nat {
    match v
    case Str(text) => codec.byteLength(text)
    case Obj(o) => codec.byteLength(codec.stringify(o))
    case Arr(items) => AnnouncedAll(codec, items)
    case _ => 0
  }

  function AnnouncedAll(codec: Codec, vs: seq<Value>): nat {
    if vs == [] then 0 else Announced(codec, vs[0]) + AnnouncedAll(codec, vs[1..])
  }

  lemma PacketSizeIsLength(codec: Codec, v: Value)
    ensures HeaderOf(codec, v).PacketSize() == |Encode(codec, v)|
  {
    hide UInt16, UInt32;
  }

  /** Outside its texts a value takes the same bytes whatever the codec. */
  lemma {:induction false} SameOutsideTexts(c: Codec, d: Codec, v: Value)
    ensures |Encode(c, v)| + TextBytes(d, v) == |Encode(d, v)| + TextBytes(c, v)
    decreases v, 1
  {
    hide EncodeAll, UInt16, UInt32, Encode, IsDynamic, KindOf;
    PacketSizeIsLength(c, v);
    PacketSizeIsLength(d, v);
    match v {
      case Arr(items) => SameOutsideTextsAll(c, d, items);
      case _ =>
    }
  }

  lemma {:induction false} SameOutsideTextsAll(c: Codec, d: Codec, vs: seq<Value>)
    ensures |EncodeAll(c, vs)| + TextBytesAll(d, vs) == |EncodeAll(d, vs)| + TextBytesAll(c, vs)
    decreases vs, 0
  {
    hide Encode, TextBytes;
    if vs != [] {
      SameOutsideTexts(c, d, vs[0]);
      SameOutsideTextsAll(c, d, vs[1..]);
    }
  }

  /** The counter grows by the length of what Write produces, with what is announced for the texts in the
      place of their bytes. */
  method WriteSize(codec: Codec, w: BufferWriterSize, v: Value)
    requires Measurable(v)
    modifies w
    ensures w.length + TextBytes(codec, v) == old(w.length) + |Encode(codec, v)| + Announced(codec, v)
    decreases v, 1
  {
    hide UInt16, UInt32, EncodeAll, TextBytesAll, AnnouncedAll, Encode, IsDynamic, KindOf;
    DynamicKinds(v);
    PacketSizeIsLength(codec, v);
    match v
    case Null => w.WriteBuffer(UInt16(NullType) + [FooterSeparator]);
    case Undefined => w.WriteBuffer(UInt16(UndefinedType) + [FooterSeparator]);
    case Bool(b) => w.WriteBuffer(UInt16(if b then BooleanTrue else BooleanFalse) + [FooterSeparator]);
    case Int(_) =>
      w.WriteUInt16();
      w.WriteUInt32();
      w.WriteByte();
    case Double(_) => WriteSizeDouble(w);
    case Date(_) => WriteSizeDouble(w);
    case Str(text) => WriteSizeText(codec, w, text);
    case Obj(o) => WriteSizeText(codec, w, codec.stringify(o));
    case Buf(bytes) =>
      WriteSizeHeader(w);
      w.WriteBuffer(bytes);
      w.WriteByte();
    case Binary(_, data) =>
      WriteSizeHeader(w);
      w.WriteByte();
      w.WriteBuffer(data);
      w.WriteByte();
    case Arr(items) =>
      WriteSizeHeader(w);
      w.WriteUInt32();
      WriteSizeElements(codec, w, items);
      w.WriteByte();
  }

  method WriteSizeDouble(w: BufferWriterSize)
    modifies w
    ensures w.length == old(w.length) + 11
  {
    w.WriteUInt16();
    w.WriteDouble();
    w.WriteByte();
  }

  method WriteSizeHeader(w: BufferWriterSize)
    modifies w
    ensures w.length == old(w.length) + DynamicHeaderSize
  {
    w.WriteUInt16();
    w.WriteUInt32();
  }

  method WriteSizeText(codec: Codec, w: BufferWriterSize, text: Text)
    modifies w
    ensures w.length == old(w.length) + DynamicHeaderSize + codec.byteLength(text) + FooterLength
  {
    WriteSizeHeader(w);
    w.WriteString(codec, text);
    w.WriteByte();
  }

  method WriteSizeElements(codec: Codec, w: BufferWriterSize, items: seq<Value>)
    requires forall i :: 0 <= i < |items| ==> Measurable(items[i])
    modifies w
    ensures w.length + TextBytesAll(codec, items)
            == old(w.length) + |EncodeAll(codec, items)| + AnnouncedAll(codec, items)
    decreases items, 0
  {
    hide Encode, Measurable, TextBytes, Announced;
    var i := 0;
    while i < |items|
      invariant i <= |items|
      invariant w.length + TextBytesAll(codec, items[..i])
                == old(w.length) + |EncodeAll(codec, items[..i])| + AnnouncedAll(codec, items[..i])
    {
      WriteSize(codec, w, items[i]);
      OneMore(codec, items, i, []);
      OneMoreText(codec, items[..i], items[i]);
      assert items[..i + 1] == items[..i] + [items[i]];
      i := i + 1;
    }
    assert items[..i] == items;
  }

  lemma {:induction false} OneMoreText(codec: Codec, vs: seq<Value>, v: Value)
    ensures TextBytesAll(codec, vs + [v]) == TextBytesAll(codec, vs) + TextBytes(codec, v)
    ensures AnnouncedAll(codec, vs + [v]) == AnnouncedAll(codec, vs) + Announced(codec, v)
  {
    hide TextBytes, Announced;
    if vs == [] {
      assert vs + [v] == [v] && [v][1..] == [];
    } else {
      assert (vs + [v])[0] == vs[0] && (vs + [v])[1..] == vs[1..] + [v];
      OneMoreText(codec, vs[1..], v);
    }
  }

  /** bytelength of src/packet/ipcPacketBufferCore.ts measures with a fresh size-only writer, and so with the
      default JSON codec, whatever codec the packet was given. The prediction is the length of the packet
      written, which is the packetSize reported, if and only if what is announced for the texts is what the
      packet's own codec writes for them. */
  method ByteLength(codec: Codec, defaultStringify: PlainObject -> Text, v: Value) returns (n: nat)
    requires Fits(codec, v)
    ensures HeaderOf(codec, v).PacketSize() == |Encode(codec, v)|
    ensures n == |Encode(codec, v)| <==> Announced(codec.(stringify := defaultStringify), v) == TextBytes(codec, v)
  {
    hide Encode, TextBytes, Announced, Fits;
    var sizing := codec.(stringify := defaultStringify);
    FitsIsMeasurable(codec, v);
    SameOutsideTexts(codec, sizing, v);
    PacketSizeIsLength(codec, v);
    var w := new BufferWriterSize();
    WriteSize(sizing, w, v);
    n := w.length;
  }

  /** With the default JSON codec, and a byteLength that measures what encodeText writes, bytelength is
      always exact. */
  lemma {:induction false} AnnouncedIsWritten(codec: Codec, v: Value)
    requires forall t :: codec.byteLength(t) == |codec.encodeText(t)|
    ensures Announced(codec, v) == TextBytes(codec, v)
    decreases v, 1
  {
    if v.Arr? {
      AnnouncedIsWrittenAll(codec, v.items);
    }
  }

  lemma {:induction false} AnnouncedIsWrittenAll(codec: Codec, vs: seq<Value>)
    requires forall t :: codec.byteLength(t) == |codec.encodeText(t)|
    ensures AnnouncedAll(codec, vs) == TextBytesAll(codec, vs)
    decreases vs, 0
  {
    if vs != [] {
      AnnouncedIsWritten(codec, vs[0]);
      AnnouncedIsWrittenAll(codec, vs[1..]);
    }
  }
}

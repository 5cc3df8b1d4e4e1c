/** The wire format, as functions on flat byte strings: what a value is written as, and what any byte
    string is read as. The writers and readers are proved against these functions. */
module Format {
  import opened ByteStrings
  import opened Codecs
  import opened Reading
  import opened Headers

  /** A serialisable JavaScript value. Doubles and dates are eight opaque bytes; Binary is an
      ArrayBuffer (code 0) or a typed array over its whole buffer (its short code otherwise). */
  datatype Value =
    | Null
    | Undefined
    | Bool(b: bool)
    | Int(n: int)
    | Double(raw: Bytes)
    | Date(raw: Bytes)
    | Str(text: Text)
    | Buf(bytes: Bytes)
    | Obj(o: PlainObject)
    | Binary(code: nat, data: Bytes)
    | Arr(items: seq<Value>)

  // ---- writing --------------------------------------------------------------------------------

  function KindOf(v: Value): nat {
    match v
    case Null => NullType
    case Undefined => UndefinedType
    case Bool(b) => if b then BooleanTrue else BooleanFalse
    case Int(n) => if n < 0 then NegativeInteger else PositiveInteger
    case Double(_) => DoubleType
    case Date(_) => DateType
    case Str(_) => StringType
    case Buf(_) => BufferType
    case Obj(_) => ObjectStringify
    case Binary(_, _) => ArrayBufferWithSize
    case Arr(_) => ArrayWithSize
  }

  predicate IsDynamic(kind: nat) {
    DeclareHeader(kind, 0).headerSize == DynamicHeaderSize
  }

  function HeaderBytes(kind: nat, contentSize: nat): Bytes {
    UInt16(kind) + if IsDynamic(kind) then UInt32(contentSize) else []
  }

  function Frame(kind: nat, content: Bytes): Bytes {
    HeaderBytes(kind, |content|) + content + [FooterSeparator]
  }

  function Abs(n: int): nat {
    if n < 0 then -n else n
  }

  /** What stands between the header and the footer. */
  function Content(codec: Codec, v: Value): Bytes
    decreases v, 0
  {
    match v
    case Null => []
    case Undefined => []
    case Bool(_) => []
    case Int(n) => UInt32(Abs(n))
    case Double(raw) => raw
    case Date(raw) => raw
    case Str(text) => codec.encodeText(text)
    case Buf(bytes) => bytes
    case Obj(o) => codec.encodeText(codec.stringify(o))
    case Binary(code, data) => [(code % 256) as Byte] + data
    case Arr(items) => UInt32(|items|) + EncodeAll(codec, items)
  }

  function Encode(codec: Codec, v: Value): Bytes
    decreases v, 1
  {
    Frame(KindOf(v), Content(codec, v))
  }

  function EncodeAll(codec: Codec, vs: seq<Value>): Bytes
    decreases vs, 0
  {
    if vs == [] then [] else Encode(codec, vs[0]) + EncodeAll(codec, vs[1..])
  }

  /** The header given to the writer's callback. */
  function HeaderOf(codec: Codec, v: Value): RawHeader {
    RawHeader(KindOf(v), if IsDynamic(KindOf(v)) then DynamicHeaderSize else FixedHeaderSize, |Content(codec, v)|)
  }

  /** Bytes per element of the typed array with this short code; none for an unknown code. */
  function ElementSize(code: nat): Option<nat> {
    if code == 0 || code == 1 || code == 2 || code == 5 then Some(1)
    else if code == 3 || code == 6 then Some(2)
    else if code == 4 || code == 8 || code == 11 then Some(4)
    else if code == 9 || code == 10 || code == 12 then Some(8)
    else None
  }

  /** The writer emits nothing for a Float32Array, whose short code the reader knows. */
  predicate Writable(code: nat) {
    ElementSize(code).Some? && code != 11
  }

  /** Numbers, counts and sizes fit the fields that hold them. */
  predicate Fits(codec: Codec, v: Value) {
    && |Content(codec, v)| < UInt32Limit
    && match v
       case Int(n) => Abs(n) < UInt32Limit
       case Double(raw) => |raw| == 8
       case Date(raw) => |raw| == 8
       case Binary(code, data) => Writable(code) && |data| % ElementSize(code).value == 0
       case Arr(items) => |items| < UInt32Limit && forall i :: 0 <= i < |items| ==> Fits(codec, items[i])
       case _ => true
  }

  /** The foreign codecs bring every text and object of v back. */
  predicate Faithful(codec: Codec, v: Value) {
    match v
    case Str(text) => codec.KeepsText(text)
    case Obj(o) => codec.KeepsObject(o)
    case Arr(items) => forall i :: 0 <= i < |items| ==> Faithful(codec, items[i])
    case _ => true
  }

  predicate Serialisable(codec: Codec, v: Value) {
    Fits(codec, v) && Faithful(codec, v)
  }

  // ---- what a list reader keeps of a value ----------------------------------------------------

  /** w is v, except for the bytes inside ArrayBuffers and typed arrays. */
  predicate Alike(v: Value, w: Value) {
    match v
    case Binary(code, data) => w.Binary? && w.code == code && |w.data| == |data|
    case Arr(items) => w.Arr? && AllAlike(items, w.items)
    case _ => w == v
  }

  predicate AllAlike(vs: seq<Value>, ws: seq<Value>) {
    |vs| == |ws| && forall i :: 0 <= i < |vs| ==> Alike(vs[i], ws[i])
  }

  /** v with the bytes inside its ArrayBuffers and typed arrays set to 0. */
  function Blank(v: Value): Value {
    match v
    case Binary(code, data) => Binary(code, seq(|data|, _ => 0))
    case Arr(items) => Arr(seq(|items|, i requires 0 <= i < |items| => Blank(items[i])))
    case _ => v
  }

  /** What alike means: nothing but those bytes may differ. */
  lemma {:induction false} AlikeIsSameBlank(v: Value, w: Value)
    ensures Alike(v, w) <==> Blank(v) == Blank(w)
  {
    if v.Arr? && w.Arr? && |v.items| == |w.items| {
      forall i | 0 <= i < |v.items| ensures Alike(v.items[i], w.items[i]) <==> Blank(v.items[i]) == Blank(w.items[i]) {
        AlikeIsSameBlank(v.items[i], w.items[i]);
      }
      if Blank(v) == Blank(w) {
        assert forall i :: 0 <= i < |v.items| ==> Blank(v.items[i]) == Blank(v).items[i] == Blank(w).items[i];
      }
    } else if v.Arr? && w.Arr? {
      assert |Blank(v).items| == |v.items| && |Blank(w).items| == |w.items|;
    } else if v.Binary? && w.Binary? {
      assert |Blank(v).data| == |v.data| && |Blank(w).data| == |w.data|;
    }
  }

  /** v holds no ArrayBuffer or typed array with a byte in it. */
  predicate NoPayload(v: Value) {
    match v
    case Binary(_, data) => data == []
    case Arr(items) => forall i :: 0 <= i < |items| ==> NoPayload(items[i])
    case _ => true
  }

  lemma {:induction false} AlikeItself(v: Value)
    ensures Alike(v, v)
  {
    AlikeIsSameBlank(v, v);
  }

  lemma {:induction false} AlikeIsSame(v: Value, w: Value)
    requires Alike(v, w) && NoPayload(v)
    ensures v == w
  {
    if v.Arr? {
      forall i | 0 <= i < |v.items| ensures v.items[i] == w.items[i] {
        AlikeIsSame(v.items[i], w.items[i]);
      }
    }
  }

  lemma {:induction false} OtherPayload(v: Value) returns (w: Value)
    requires !NoPayload(v)
    ensures Alike(v, w) && w != v
  {
    match v {
      case Binary(code, data) =>
        w := Binary(code, data[0 := if data[0] == 0 then 1 else 0]);
        assert w.data[0] != data[0];
      case Arr(items) =>
        var i :| 0 <= i < |items| && !NoPayload(items[i]);
        var other := OtherPayload(items[i]);
        w := Arr(items[i := other]);
        assert w.items[i] != items[i];
        forall k | 0 <= k < |items| ensures Alike(items[k], w.items[k]) {
          AlikeItself(items[k]);
        }
      case _ =>
    }
  }

  /** Exactly the values without such bytes have no other value alike. */
  lemma NoPayloadExactly(v: Value)
    ensures NoPayload(v) ==> forall w :: Alike(v, w) ==> w == v
    ensures !NoPayload(v) ==> exists w :: Alike(v, w) && w != v
  {
    if NoPayload(v) {
      forall w | Alike(v, w) ensures w == v {
        AlikeIsSame(v, w);
      }
    } else {
      var w := OtherPayload(v);
      assert Alike(v, w) && w != v;
    }
  }

  // ---- reading --------------------------------------------------------------------------------

  /** Stopped: an exception was thrown. Unmodelled: a list reader met an ArrayBuffer content of size 0, which
      no writer writes and which asks it for -1 bytes. */
  datatype Outcome<+T> = Ok(value: T, next: nat) | Stopped | Unmodelled

  /** The packet at offset at; an incomplete or unknown one reads as undefined. */
  function ReadAt(codec: Codec, s: Bytes, at: nat, flat: bool): (r: Outcome<Value>)
    requires at <= |s|
    ensures r.Ok? ==> at <= r.next <= |s|
    decreases |s| - at, 0, 0
  {
    var h := HeaderAt(s, at);
    if h.raw.contentSize >= 0 then
      match ContentAt(codec, s, h.next, h.raw.kind, h.raw.contentSize, flat)
      case Ok(v, next) => Ok(v, SkipTo(s, next, FooterLength))
      case Stopped => Stopped
      case Unmodelled => Unmodelled
    else
      Ok(Undefined, h.next)
  }

  /** What is read here is what a flat reader returns; a list reader returns a value alike.
      The content of announced size that starts at offset at. An array is read element by element,
      whatever its announced size. */
  function ContentAt(codec: Codec, s: Bytes, at: nat, kind: nat, size: nat, flat: bool): (r: Outcome<Value>)
    requires at + size < |s|
    ensures r.Ok? ==> at <= r.next <= |s|
    decreases |s| - at, 0, 0
  {
    if kind == StringType then
      Ok(Str(codec.TextOf(s[at..at + size])), at + size)
    else if kind == BufferType then
      Ok(Buf(s[at..at + size]), at + size)
    else if kind == DoubleType then
      if at + 8 <= |s| then Ok(Double(s[at..at + 8]), at + 8) else Stopped
    else if kind == NegativeInteger then
      if at + 4 <= |s| then Ok(Int(0 - UInt32At(s, at)), at + 4) else Stopped
    else if kind == PositiveInteger then
      if at + 4 <= |s| then Ok(Int(UInt32At(s, at)), at + 4) else Stopped
    else if kind == BooleanTrue then
      Ok(Bool(true), at)
    else if kind == BooleanFalse then
      Ok(Bool(false), at)
    else if kind == DateType then
      if at + 8 <= |s| then Ok(Date(s[at..at + 8]), at + 8) else Stopped
    else if kind == ArrayWithSize then
      if at + 4 <= |s| then
        Collected(ElementsAt(codec, s, at + 4, UInt32At(s, at), flat))
      else Stopped
    else if kind == ArrayBufferWithSize then
      if flat || size > 0 then BinaryAt(s, at, size) else Unmodelled
    else if kind == ObjectStringify then
      match codec.parse(codec.TextOf(s[at..at + size]))
      case Some(o) => Ok(Obj(o), at + size)
      case None => Stopped
    else if kind == NullType then
      Ok(Null, at)
    else
      Ok(Undefined, at)
  }

  function BinaryAt(s: Bytes, at: nat, size: nat): (r: Outcome<Value>)
    requires at + size < |s|
    ensures r.Ok? ==> at <= r.next <= |s|
  {
    var code := s[at] as nat;
    var end := if size == 0 then at + 1 else at + size;
    if ElementSize(code).None? then Ok(Undefined, end)
    else if (end - at - 1) % ElementSize(code).value != 0 then Stopped
    else Ok(Binary(code, s[at + 1..end]), end)
  }

  /** n packets in a row. */
  function ElementsAt(codec: Codec, s: Bytes, at: nat, n: nat, flat: bool): (r: Outcome<seq<Value>>)
    requires at <= |s|
    ensures r.Ok? ==> at <= r.next <= |s|
    decreases |s| - at, 1, n
  {
    if n == 0 then Ok([], at)
    else
      match ReadAt(codec, s, at, flat)
      case Stopped => Stopped
      case Unmodelled => Unmodelled
      case Ok(v, next) => Before([v], ElementsAt(codec, s, next, n - 1, flat))
  }

  function Before(done: seq<Value>, rest: Outcome<seq<Value>>): Outcome<seq<Value>> {
    match rest
    case Ok(vs, next) => Ok(done + vs, next)
    case Stopped => Stopped
    case Unmodelled => Unmodelled
  }

  function Collected(out: Outcome<seq<Value>>): Outcome<Value> {
    match out
    case Ok(vs, next) => Ok(Arr(vs), next)
    case Stopped => Stopped
    case Unmodelled => Unmodelled
  }
}

/** Reading undoes writing, and no written packet can be mistaken for another. */
module RoundTrips {
  import opened ByteStrings
  import opened Codecs
  import opened Reading
  import opened Headers
  import opened Format

  /** What arrives of a written value: its texts and objects as the foreign codecs bring them back, or nothing
      when the JSON codec throws on one of them. */
  function Arrival(codec: Codec, v: Value): Option<Value>
    decreases v, 0
  {
    match v
    case Str(text) => Some(Str(codec.TextOf(codec.encodeText(text))))
    case Obj(o) =>
      var back := codec.parse(codec.TextOf(codec.encodeText(codec.stringify(o))));
      if back.Some? then Some(Obj(back.value)) else None
    case Arr(items) => AsArray(ArrivalAll(codec, items))
    case _ => Some(v)
  }

  function ArrivalAll(codec: Codec, vs: seq<Value>): (r: Option<seq<Value>>)
    ensures r.Some? ==> |r.value| == |vs|
    decreases vs, 1
  {
    if vs == [] then Some([])
    else
      match Arrival(codec, vs[0])
      case None => None
      case Some(w) =>
        var rest := ArrivalAll(codec, vs[1..]);
        if rest.Some? then Some([w] + rest.value) else None
  }

  function AsArray(vs: Option<seq<Value>>): Option<Value> {
    if vs.Some? then Some(Arr(vs.value)) else None
  }

  /** The outcome of reading w up to next; nothing when an exception is thrown. */
  function Arrived<T>(w: Option<T>, next: nat): Outcome<T> {
    if w.Some? then Ok(w.value, next) else Stopped
  }

  /** A value arrives as it was if and only if the foreign codecs bring back its texts and objects. */
  lemma {:induction false} FaithfulArrives(codec: Codec, v: Value)
    ensures Arrival(codec, v) == Some(v) <==> Faithful(codec, v)
    decreases v, 0
  {
    if v.Arr? {
      FaithfulArriveAll(codec, v.items);
    }
  }

  lemma {:induction false} FaithfulArriveAll(codec: Codec, vs: seq<Value>)
    ensures ArrivalAll(codec, vs) == Some(vs) <==> forall i :: 0 <= i < |vs| ==> Faithful(codec, vs[i])
    decreases vs, 1
  {
    hide Faithful, Arrival;
    if vs != [] {
      FaithfulArrives(codec, vs[0]);
      FaithfulArriveAll(codec, vs[1..]);
      assert vs == [vs[0]] + vs[1..];
      HeadAndTail(codec, vs);
    }
  }

  lemma HeadAndTail(codec: Codec, vs: seq<Value>)
    requires vs != []
    ensures (forall i :: 0 <= i < |vs| ==> Faithful(codec, vs[i]))
            <==> Faithful(codec, vs[0]) && forall i :: 0 <= i < |vs[1..]| ==> Faithful(codec, vs[1..][i])
  {
    hide Faithful;
    if Faithful(codec, vs[0]) && forall i :: 0 <= i < |vs[1..]| ==> Faithful(codec, vs[1..][i]) {
      forall i | 0 <= i < |vs| ensures Faithful(codec, vs[i]) {
        assert i > 0 ==> vs[i] == vs[1..][i - 1];
      }
    }
    if forall i :: 0 <= i < |vs| ==> Faithful(codec, vs[i]) {
      forall i | 0 <= i < |vs[1..]| ensures Faithful(codec, vs[1..][i]) {
        assert vs[1..][i] == vs[i + 1];
      }
    }
  }

  lemma FrameParts(s: Bytes, at: nat, kind: nat, content: Bytes)
    requires At(s, at, Frame(kind, content))
    ensures |Frame(kind, content)| == |HeaderBytes(kind, |content|)| + |content| + 1
    ensures At(s, at, UInt16(kind))
    ensures IsDynamic(kind) ==> At(s, at + 2, UInt32(|content|))
    ensures At(s, at + |HeaderBytes(kind, |content|)|, content)
  {
    var header := HeaderBytes(kind, |content|);
    AtSplit(s, at, header + content, [FooterSeparator]);
    AtSplit(s, at, header, content);
    AtSplit(s, at, UInt16(kind), if IsDynamic(kind) then UInt32(|content|) else []);
  }

  lemma HeaderOfFrame(s: Bytes, at: nat, kind: nat, content: Bytes)
    requires At(s, at, Frame(kind, content)) && kind < 0x10000 && |content| < UInt32Limit
    requires kind != NotValid && DeclareHeader(kind, |content|) == RawHeader(kind, |HeaderBytes(kind, |content|)|, |content|)
    ensures HeaderAt(s, at) == Peeked(RawHeader(kind, |HeaderBytes(kind, |content|)|, |content|),
                                      at + |HeaderBytes(kind, |content|)|)
    ensures |Frame(kind, content)| == |HeaderBytes(kind, |content|)| + |content| + FooterLength
    ensures At(s, at + |HeaderBytes(kind, |content|)|, content)
  {
    FrameParts(s, at, kind, content);
    AtUInt16(s, at, kind);
    if IsDynamic(kind) {
      AtUInt32(s, at + 2, |content|);
    }
    hide At, UInt16, UInt32;
  }

  lemma HeaderDeclared(codec: Codec, v: Value)
    requires Fits(codec, v)
    ensures var kind, size := KindOf(v), |Content(codec, v)|;
            && kind < 0x10000 && kind != NotValid
            && DeclareHeader(kind, size) == RawHeader(kind, |HeaderBytes(kind, size)|, size)
  {
    hide UInt16, UInt32, EncodeAll, IsDynamic, KindOf, Content, DeclareHeader;
    DynamicKinds(v);
    if v.Str? || v.Buf? || v.Obj? || v.Binary? || v.Arr? {
      DynamicDeclared(v, |Content(codec, v)|);
    } else {
      FixedDeclared(codec, v);
    }
  }

  lemma DynamicKinds(v: Value)
    ensures IsDynamic(KindOf(v)) <==> v.Str? || v.Buf? || v.Obj? || v.Binary? || v.Arr?
  {
  }

  lemma DynamicDeclared(v: Value, size: nat)
    requires v.Str? || v.Buf? || v.Obj? || v.Binary? || v.Arr?
    ensures KindOf(v) < 0x10000 && KindOf(v) != NotValid
    ensures DeclareHeader(KindOf(v), size) == RawHeader(KindOf(v), DynamicHeaderSize, size)
  {
  }

  lemma FixedDeclared(codec: Codec, v: Value)
    requires Fits(codec, v) && !v.Str? && !v.Buf? && !v.Obj? && !v.Binary? && !v.Arr?
    ensures KindOf(v) < 0x10000 && KindOf(v) != NotValid
    ensures DeclareHeader(KindOf(v), |Content(codec, v)|) == RawHeader(KindOf(v), FixedHeaderSize, |Content(codec, v)|)
  {
    hide UInt16, UInt32, EncodeAll;
  }

  /** Header agreement: the header announced to the writer's callback is the one read back, wherever
      the packet stands and whatever follows; its sizes measure the packet exactly. */
  lemma HeaderOfEncoded(codec: Codec, v: Value, s: Bytes, at: nat)
    requires Fits(codec, v) && At(s, at, Encode(codec, v))
    ensures HeaderAt(s, at) == Peeked(HeaderOf(codec, v), at + HeaderOf(codec, v).headerSize)
    ensures HeaderOf(codec, v).PacketSize() == |Encode(codec, v)|
    ensures At(s, at + HeaderOf(codec, v).headerSize, Content(codec, v))
  {
    hide HeaderAt, At;
    HeaderDeclared(codec, v);
    HeaderOfFrame(s, at, KindOf(v), Content(codec, v));
  }

  lemma {:induction false} ArrayContent(codec: Codec, s: Bytes, at: nat, size: nat, flat: bool, n: nat)
    requires at + size < |s| && At(s, at, UInt32(n)) && n < UInt32Limit
    ensures ContentAt(codec, s, at, ArrayWithSize, size, flat) == Collected(ElementsAt(codec, s, at + 4, n, flat))
  {
    hide UInt32, UInt32At, ElementsAt;
    AtUInt32(s, at, n);
  }

  lemma {:induction false} BinaryOfEncoded(s: Bytes, at: nat, code: nat, data: Bytes)
    requires ElementSize(code).Some? && |data| % ElementSize(code).value == 0
    requires At(s, at, [(code % 256) as Byte] + data) && at + 1 + |data| < |s|
    ensures BinaryAt(s, at, 1 + |data|) == Ok(Binary(code, data), at + 1 + |data|)
  {
    AtIndex(s, at, [(code % 256) as Byte] + data, 0);
    AtSplit(s, at, [(code % 256) as Byte], data);
  }

  lemma {:induction false} ElementsStep(codec: Codec, s: Bytes, at: nat, vs: seq<Value>, flat: bool, next: nat, end: nat)
    requires at <= |s| && next <= |s| && vs != []
    requires ReadAt(codec, s, at, flat) == Arrived(Arrival(codec, vs[0]), next)
    requires ElementsAt(codec, s, next, |vs| - 1, flat) == Arrived(ArrivalAll(codec, vs[1..]), end)
    ensures ElementsAt(codec, s, at, |vs|, flat) == Arrived(ArrivalAll(codec, vs), end)
  {
    hide ReadAt, Arrival;
  }

  lemma {:induction false} ScalarOfEncoded(codec: Codec, v: Value, s: Bytes, at: nat, flat: bool)
    requires Fits(codec, v) && !v.Arr? && !v.Binary?
    requires At(s, at, Content(codec, v)) && at + |Content(codec, v)| < |s|
    ensures ContentAt(codec, s, at, KindOf(v), |Content(codec, v)|, flat)
            == Arrived(Arrival(codec, v), at + |Content(codec, v)|)
  {
    if v.Int? {
      AtUInt32(s, at, Abs(v.n));
    }
  }

  lemma FirstOfAll(codec: Codec, vs: seq<Value>, s: Bytes, at: nat)
    requires vs != [] && At(s, at, EncodeAll(codec, vs))
    ensures At(s, at, Encode(codec, vs[0]))
    ensures At(s, at + |Encode(codec, vs[0])|, EncodeAll(codec, vs[1..]))
    ensures |EncodeAll(codec, vs)| == |Encode(codec, vs[0])| + |EncodeAll(codec, vs[1..])|
  {
    AtSplit(s, at, Encode(codec, vs[0]), EncodeAll(codec, vs[1..]));
  }

  /** Reading undoes writing, for every value: content of any nesting reads back as what arrives of it, and
      ends exactly at the footer. */
  lemma {:induction false} ContentOfEncoded(codec: Codec, v: Value, s: Bytes, at: nat, flat: bool)
    requires Fits(codec, v)
    requires At(s, at, Content(codec, v)) && at + |Content(codec, v)| < |s|
    ensures ContentAt(codec, s, at, KindOf(v), |Content(codec, v)|, flat)
            == Arrived(Arrival(codec, v), at + |Content(codec, v)|)
    decreases v, 0
  {
    match v
    case Binary(code, data) =>
      BinaryOfEncoded(s, at, code, data);
    case Arr(items) =>
      ArrayOfEncoded(codec, items, s, at, flat);
    case _ =>
      ScalarOfEncoded(codec, v, s, at, flat);
  }

  lemma {:induction false} ArrayOfEncoded(codec: Codec, items: seq<Value>, s: Bytes, at: nat, flat: bool)
    requires |items| < UInt32Limit && forall i :: 0 <= i < |items| ==> Fits(codec, items[i])
    requires At(s, at, UInt32(|items|) + EncodeAll(codec, items)) && at + 4 + |EncodeAll(codec, items)| < |s|
    ensures ContentAt(codec, s, at, ArrayWithSize, 4 + |EncodeAll(codec, items)|, flat)
            == Arrived(AsArray(ArrivalAll(codec, items)), at + 4 + |EncodeAll(codec, items)|)
    decreases items, 2
  {
    hide UInt32, UInt32At, Encode, ReadAt, HeaderAt, ContentAt, ElementsAt, Fits, ArrivalAll;
    AtSplit(s, at, UInt32(|items|), EncodeAll(codec, items));
    ElementsOfEncoded(codec, items, s, at + 4, flat);
    ArrayContent(codec, s, at, 4 + |EncodeAll(codec, items)|, flat, |items|);
  }

  lemma {:induction false} ReadEncoded(codec: Codec, v: Value, s: Bytes, at: nat, flat: bool)
    requires Fits(codec, v) && At(s, at, Encode(codec, v))
    ensures |Encode(codec, v)| >= 3
    ensures ReadAt(codec, s, at, flat) == Arrived(Arrival(codec, v), SkipTo(s, at + |Encode(codec, v)| - 1, 1))
    decreases v, 1
  {
    hide HeaderAt, ContentAt, Frame, Arrival, Fits;
    HeaderOfEncoded(codec, v, s, at);
    ContentOfEncoded(codec, v, s, at + HeaderOf(codec, v).headerSize, flat);
  }

  lemma {:induction false} FirstOfEncoded(codec: Codec, vs: seq<Value>, s: Bytes, at: nat, flat: bool) returns (next: nat)
    requires vs != [] && Fits(codec, vs[0])
    requires At(s, at, EncodeAll(codec, vs)) && at + |EncodeAll(codec, vs)| < |s|
    ensures at < next < |s| && ReadAt(codec, s, at, flat) == Arrived(Arrival(codec, vs[0]), next)
    ensures At(s, next, EncodeAll(codec, vs[1..]))
    ensures next + |EncodeAll(codec, vs[1..])| == at + |EncodeAll(codec, vs)|
    decreases vs, 0
  {
    hide Encode, ReadAt, HeaderAt, Arrival, Fits;
    next := at + |Encode(codec, vs[0])|;
    FirstOfAll(codec, vs, s, at);
    ReadEncoded(codec, vs[0], s, at, flat);
  }

  lemma {:induction false} ElementsOfEncoded(codec: Codec, vs: seq<Value>, s: Bytes, at: nat, flat: bool)
    requires forall i :: 0 <= i < |vs| ==> Fits(codec, vs[i])
    requires At(s, at, EncodeAll(codec, vs)) && at + |EncodeAll(codec, vs)| < |s|
    ensures ElementsAt(codec, s, at, |vs|, flat) == Arrived(ArrivalAll(codec, vs), at + |EncodeAll(codec, vs)|)
    decreases vs, 1
  {
    hide Encode, ReadAt, HeaderAt, Arrival, Fits;
    if vs != [] {
      var next := FirstOfEncoded(codec, vs, s, at, flat);
      ElementsOfEncoded(codec, vs[1..], s, next, flat);
      ElementsStep(codec, s, at, vs, flat, next, at + |EncodeAll(codec, vs)|);
    }
  }

  /** Round trip with trailing data: reading what was written gives the value back, and leaves the cursor at the
      data that follows, if and only if the foreign codecs bring back its texts and objects; an exception is
      thrown if and only if the JSON codec throws. At the very end of the data the last skip is refused and the
      cursor stays on the footer. */
  lemma RoundTrip(codec: Codec, v: Value, before: Bytes, after: Bytes, flat: bool)
    requires Fits(codec, v)
    ensures var r := ReadAt(codec, before + Encode(codec, v) + after, |before|, flat);
            var end := |before| + |Encode(codec, v)| - (if after == [] then 1 else 0);
            && r == (if Arrival(codec, v).Some? then Ok(Arrival(codec, v).value, end) else Stopped)
            && (r == Ok(v, end) <==> Faithful(codec, v))
  {
    hide Content, HeaderAt, ReadAt, Fits, Arrival, Faithful;
    var s := before + Encode(codec, v) + after;
    assert s[|before|..|before| + |Encode(codec, v)|] == Encode(codec, v);
    ReadEncoded(codec, v, s, |before|, flat);
    FaithfulArrives(codec, v);
  }

  /** Self-delimiting, on strict prefixes: the header is reported incomplete until the last byte. */
  lemma StrictPrefixIncomplete(codec: Codec, v: Value, k: nat)
    requires Fits(codec, v) && k < |Encode(codec, v)|
    ensures !Complete(Encode(codec, v)[..k], 0)
  {
    hide HeaderAt, Encode, KindOf, Content;
    var e := Encode(codec, v);
    var s := e[..k];
    AtWhole(e);
    if Complete(s, 0) {
      var size := HeaderAt(s, 0).raw.PacketSize();
      assert e[0..size] == s[0..size];
      HeaderIsLocal(s, 0, e, 0);
      HeaderOfEncoded(codec, v, e, 0);
    }
  }

  /** Two packets that start the same byte string are the same packet. */
  lemma SamePlaceSamePacket(codec: Codec, v: Value, w: Value, s: Bytes, at: nat)
    requires Fits(codec, v) && Fits(codec, w)
    requires At(s, at, Encode(codec, v)) && At(s, at, Encode(codec, w))
    ensures Encode(codec, v) == Encode(codec, w)
  {
    hide HeaderAt, Encode, Content, KindOf;
    HeaderOfEncoded(codec, v, s, at);
    HeaderOfEncoded(codec, w, s, at);
  }

  /** No written packet is a proper prefix of another. */
  lemma PrefixFree(codec: Codec, v: Value, w: Value)
    requires Fits(codec, v) && Fits(codec, w) && Encode(codec, v) <= Encode(codec, w)
    ensures Encode(codec, v) == Encode(codec, w)
  {
    hide Encode;
    var e := Encode(codec, w);
    AtWhole(e);
    assert e[0..|Encode(codec, v)|] == Encode(codec, v);
    SamePlaceSamePacket(codec, v, w, e, 0);
  }

  /** Concatenated packets split in one way only: a wire image belongs to one list of values. */
  lemma {:induction false} UniqueDecoding(codec: Codec, vs: seq<Value>, ws: seq<Value>)
    requires forall i :: 0 <= i < |vs| ==> Serialisable(codec, vs[i])
    requires forall i :: 0 <= i < |ws| ==> Serialisable(codec, ws[i])
    requires EncodeAll(codec, vs) == EncodeAll(codec, ws)
    ensures vs == ws
  {
    hide Encode, ReadAt, HeaderAt, Arrival, Fits, Faithful;
    var s := EncodeAll(codec, vs);
    if vs != [] && ws != [] {
      var v, w := vs[0], ws[0];
      assert s[0..|Encode(codec, v)|] == Encode(codec, v);
      assert s[0..|Encode(codec, w)|] == Encode(codec, w);
      SameWhenFaithful(codec, v, w, s);
      assert EncodeAll(codec, vs[1..]) == s[|Encode(codec, v)|..];
      assert EncodeAll(codec, ws[1..]) == s[|Encode(codec, w)|..];
      UniqueDecoding(codec, vs[1..], ws[1..]);
      assert vs == [v] + vs[1..] && ws == [w] + ws[1..];
    } else if vs != [] {
      NotEmpty(codec, vs[0]);
    } else if ws != [] {
      NotEmpty(codec, ws[0]);
    }
  }

  lemma NotEmpty(codec: Codec, v: Value)
    ensures Encode(codec, v) != []
  {
  }

  lemma SameWhenFaithful(codec: Codec, v: Value, w: Value, s: Bytes)
    requires Serialisable(codec, v) && Serialisable(codec, w)
    requires At(s, 0, Encode(codec, v)) && At(s, 0, Encode(codec, w))
    ensures v == w && Encode(codec, v) == Encode(codec, w)
  {
    hide Encode, ReadAt, HeaderAt, Arrival, Fits, Faithful;
    SamePlaceSamePacket(codec, v, w, s, 0);
    ReadEncoded(codec, v, s, 0, true);
    ReadEncoded(codec, w, s, 0, true);
    FaithfulArrives(codec, v);
    FaithfulArrives(codec, w);
  }

  // ---- two images, byte by byte ---------------------------------------------------------------------

  lemma ArrayImage(codec: Codec)
    ensures Encode(codec, Arr([Null])) == [0x5b, 0x41, 7, 0, 0, 0, 1, 0, 0, 0, 0x5b, 0x4e, 0x5d, 0x5d]
  {
    assert [Null][1..] == [];
    assert EncodeAll(codec, [Null]) == Encode(codec, Null);
  }

  lemma BinaryImage(codec: Codec)
    ensures Encode(codec, Binary(0, [7, 8])) == [0x5b, 0x43, 3, 0, 0, 0, 0, 7, 8, 0x5d]
  {
    assert UInt16(ArrayBufferWithSize) == [0x5b, 0x43];
    assert UInt32(3) == [3, 0, 0, 0];
  }

  // ---- reading arbitrary bytes -------------------------------------------------------------------

  /** On any bytes, exceptions included, both readers read the same, up to the payloads of ArrayBuffers;
      only an ArrayBuffer content of size 0 is out of the list reader's model. */
  lemma {:induction false} FlatReadsAlike(codec: Codec, s: Bytes, at: nat)
    requires at <= |s| && !ReadAt(codec, s, at, false).Unmodelled?
    ensures ReadAt(codec, s, at, true) == ReadAt(codec, s, at, false)
    decreases |s| - at, 0, 0
  {
    var h := HeaderAt(s, at);
    if h.raw.contentSize >= 0 {
      FlatContentAlike(codec, s, h.next, h.raw.kind, h.raw.contentSize);
    }
  }

  lemma {:induction false} FlatContentAlike(codec: Codec, s: Bytes, at: nat, kind: nat, size: nat)
    requires at + size < |s| && !ContentAt(codec, s, at, kind, size, false).Unmodelled?
    ensures ContentAt(codec, s, at, kind, size, true) == ContentAt(codec, s, at, kind, size, false)
    decreases |s| - at, 0, 0
  {
    if kind == ArrayWithSize && at + 4 <= |s| {
      FlatElementsAlike(codec, s, at + 4, UInt32At(s, at));
    }
  }

  lemma {:induction false} FlatElementsAlike(codec: Codec, s: Bytes, at: nat, n: nat)
    requires at <= |s| && !ElementsAt(codec, s, at, n, false).Unmodelled?
    ensures ElementsAt(codec, s, at, n, true) == ElementsAt(codec, s, at, n, false)
    decreases |s| - at, 1, n
  {
    if n > 0 {
      FlatReadsAlike(codec, s, at);
      if ReadAt(codec, s, at, false).Ok? {
        FlatElementsAlike(codec, s, ReadAt(codec, s, at, false).next, n - 1);
      }
    }
  }
}

/** Values in at one end of a socket, the same values out at the other. */
module EndToEnd {
  import opened ByteStrings
  import opened Codecs
  import opened ListReading
  import opened Headers
  import opened Format
  import opened Writing
  import opened PacketWriting
  import opened RoundTrips
  import opened ArrayAccess
  import opened PacketReading
  import opened Packets
  import opened Framing
  import opened Decoding

  ghost predicate Sendable(codec: Codec, vs: seq<Value>) {
    forall i :: 0 <= i < |vs| ==> Fits(codec, vs[i])
  }

  /** Every value arrives, in order, as the foreign codecs bring it back, or as an exception where the JSON codec
      throws; of ArrayBuffers and typed arrays at most the bytes inside them differ. A value without such bytes
      whose texts and objects the codecs keep arrives as it was. */
  ghost predicate Delivered(codec: Codec, vs: seq<Value>, values: seq<Option<Value>>) {
    && |values| == |vs|
    && (forall i :: 0 <= i < |vs| ==> Agree(values[i], Arrival(codec, vs[i])))
    && (forall i :: 0 <= i < |vs| && Faithful(codec, vs[i]) && NoPayload(vs[i]) ==> values[i] == Some(vs[i]))
  }

  /** Each of the three socket writers, with any buffer size, puts exactly the encodings of the values on
      the wire, in order, and keeps nothing back. */
  method Transmit(codec: Codec, strategy: Strategy, vs: seq<Value>) returns (socket: Socket)
    requires !strategy.InMemory? && forall i :: 0 <= i < |vs| ==> Fits(codec, vs[i])
    ensures socket.Sent() == EncodeAll(codec, vs)
  {
    hide Encode, Fits, Concat;
    socket := new Socket();
    var w := new ListWriter(strategy, socket);
    StartBounds([]);
    var i := 0;
    while i < |vs|
      invariant i <= |vs| && w.Valid() && w.Settled() && w.context == 0 && w.strategy == strategy && w.socket == socket
      invariant fresh(w) && fresh(socket)
      invariant w.Produced() == EncodeAll(codec, vs[..i])
    {
      var _ := Write(codec, w, vs[i]);
      OneMore(codec, vs, i, []);
      NothingBefore(EncodeAll(codec, vs[..i + 1]));
      NothingBefore(EncodeAll(codec, vs[..i]));
      i := i + 1;
    }
    assert vs[..i] == vs;
  }

  lemma NothingBefore(s: Bytes)
    ensures [] + s == s
  {
  }

  /** What parse must return for a frame, by whichever reader. */
  ghost predicate Parsed(codec: Codec, frame: Bytes, v: Option<Value>) {
    Complete(frame, 0) && !Reply(codec, frame, Whole, false).Unmodelled? ==>
      Answered(false, Reply(codec, frame, Whole, true), v)
  }

  lemma HoldSameLength(packets: seq<IpcPacketBufferList>, frames: seq<Bytes>, owned: set<object>)
    requires Hold(packets, frames, owned)
    ensures |packets| == |frames|
  {
  }

  /** Parses each packet of one arrival; parsing one leaves the others as they were. */
  method ParseAll(codec: Codec, packets: seq<IpcPacketBufferList>, ghost frames: seq<Bytes>, ghost owned: set<object>)
    returns (values: seq<Option<Value>>)
    requires Hold(packets, frames, owned)
    modifies owned
    ensures |values| == |frames|
    ensures forall i :: 0 <= i < |values| ==> Parsed(codec, frames[i], values[i])
    decreases |packets|
  {
    hide Hold, Parsed, HeaderAt, Reply;
    HoldSameLength(packets, frames, owned);
    if packets == [] {
      values := [];
    } else {
      var v := ParseOne(codec, packets, frames, owned);
      var vs := ParseAll(codec, packets[1..], frames[1..], owned);
      values := [v] + vs;
    }
  }

  method ParseOne(codec: Codec, packets: seq<IpcPacketBufferList>, ghost frames: seq<Bytes>, ghost owned: set<object>)
    returns (v: Option<Value>)
    requires Hold(packets, frames, owned) && packets != []
    modifies owned
    ensures |frames| == |packets| && Parsed(codec, frames[0], v) && Hold(packets[1..], frames[1..], owned)
  {
    hide HeaderAt, Reply, Concat, Answered;
    assert Holding(packets[0], frames[0], owned);
    v := packets[0].Ask(codec, Whole);
    ghost var others := packets[1..];
    forall i | 0 <= i < |others| ensures Holding(others[i], frames[1..][i], owned) {
      assert old(Holding(packets[i + 1], frames[i + 1], owned));
      assert packets[0] != packets[i + 1] && old(packets[0].buffers) != old(packets[i + 1].buffers);
    }
  }

  lemma AddParsed(codec: Codec, fs: seq<Bytes>, vs: seq<Option<Value>>, fs': seq<Bytes>, vs': seq<Option<Value>>)
    requires |fs| == |vs| && |fs'| == |vs'|
    requires forall i :: 0 <= i < |vs| ==> Parsed(codec, fs[i], vs[i])
    requires forall i :: 0 <= i < |vs'| ==> Parsed(codec, fs'[i], vs'[i])
    ensures forall i :: 0 <= i < |vs + vs'| ==> Parsed(codec, (fs + fs')[i], (vs + vs')[i])
  {
    hide Parsed;
  }

  /** Feeds the pieces to a decoder and parses the packets of every arrival. Whatever the pieces, the
      values are those of the packets at the front of all the bytes. */
  method Receive(codec: Codec, pieces: seq<Bytes>) returns (values: seq<Option<Value>>)
    ensures |values| == |Frames(Concat(pieces))|
    ensures forall i :: 0 <= i < |values| ==> Parsed(codec, Frames(Concat(pieces))[i], values[i])
  {
    hide Hold, Parsed, Frames, Rest, HeaderAt, Coordinates;
    var decoder := new IpcPacketSocketDecoder();
    values := [];
    var i := 0;
    NoFrames();
    while i < |pieces|
      invariant i <= |pieces| && decoder.Valid() && decoder.received == Concat(pieces[..i])
      invariant fresh(decoder) && fresh(decoder.packet) && fresh(decoder.bufferListReader)
      invariant fresh(decoder.bufferListReader.buffers)
      invariant |values| == |Frames(decoder.received)|
      invariant forall k :: 0 <= k < |values| ==> Parsed(codec, Frames(decoder.received)[k], values[k])
    {
      ghost var before, unread := decoder.received, decoder.bufferListReader.Unread();
      var packets, owned := decoder.HandleData(pieces[i]);
      ghost var frames := Frames(unread + pieces[i]);
      var more := ParseAll(codec, packets, frames, owned);
      AddParsed(codec, Frames(before), values, frames, more);
      values := values + more;
      ConcatPush(pieces[..i], pieces[i]);
      assert pieces[..i + 1] == pieces[..i] + [pieces[i]];
      i := i + 1;
    }
    assert pieces[..i] == pieces;
  }

  lemma NoFrames()
    ensures Frames([]) == []
  {
  }

  lemma AgreeIsSame(a: Option<Value>, b: Option<Value>)
    requires Agree(a, b)
    ensures b.Some? && NoPayload(b.value) ==> a == b
  {
  }

  /** The frames of a sent list parse to what arrives of it. */
  lemma SentIsParsed(codec: Codec, vs: seq<Value>, values: seq<Option<Value>>)
    requires Sendable(codec, vs)
    requires |values| == |Frames(EncodeAll(codec, vs))|
    requires forall i :: 0 <= i < |values| ==> Parsed(codec, Frames(EncodeAll(codec, vs))[i], values[i])
    ensures Delivered(codec, vs, values)
  {
    hide Encode, HeaderAt, Reply, Fits, Agree, Answered, Arrival, Faithful, NoPayload;
    assert forall i :: 0 <= i < |vs| ==> Fits(codec, vs[i]);
    FramesOfEncoded(codec, vs);
    forall i | 0 <= i < |vs|
      ensures Agree(values[i], Arrival(codec, vs[i]))
      ensures Faithful(codec, vs[i]) && NoPayload(vs[i]) ==> values[i] == Some(vs[i])
    {
      ReplyOfEncoded(codec, vs[i], true);
      ReplyOfEncoded(codec, vs[i], false);
      assert Parsed(codec, Encodings(codec, vs)[i], values[i]);
      AnswersAgree(Reply(codec, Encode(codec, vs[i]), Whole, true), values[i]);
      FaithfulArrives(codec, vs[i]);
      AgreeIsSame(values[i], Arrival(codec, vs[i]));
    }
  }

  /** End to end: for every list of values, every socket writer and buffer size, and every way the network
      may cut the bytes into pieces, exactly the values sent are received, in order. Nothing is asked of the
      foreign codecs. */
  method SendAndReceive(codec: Codec, strategy: Strategy, vs: seq<Value>, cut: seq<Bytes> -> seq<Bytes>)
    returns (values: seq<Option<Value>>)
    requires !strategy.InMemory? && Sendable(codec, vs)
    requires forall writes :: Concat(cut(writes)) == Concat(writes)
    ensures Delivered(codec, vs, values)
  {
    hide Encode, HeaderAt, Reply, Fits, Frames, Parsed;
    assert forall i :: 0 <= i < |vs| ==> Fits(codec, vs[i]);
    var socket := Transmit(codec, strategy, vs);
    values := Receive(codec, cut(socket.writes));
    SentIsParsed(codec, vs, values);
  }
}

/** How a received byte stream divides into packets. */
module Framing {
  import opened ByteStrings
  import opened Codecs
  import opened Headers
  import opened Format
  import opened RoundTrips

  /** s is one packet and nothing else. */
  predicate IsPacket(s: Bytes) {
    Complete(s, 0) && HeaderAt(s, 0).raw.PacketSize() == |s|
  }

  function FirstSize(s: Bytes): (n: nat)
    requires Complete(s, 0)
    ensures 3 <= n <= |s|
  {
    HeaderAt(s, 0).raw.PacketSize()
  }

  /** The complete packets at the front of s, and what is left behind them. */
  function Frames(s: Bytes): seq<Bytes>
    decreases |s|
  {
    if Complete(s, 0) then [s[..FirstSize(s)]] + Frames(s[FirstSize(s)..]) else []
  }

  function Rest(s: Bytes): Bytes
    decreases |s|
  {
    if Complete(s, 0) then Rest(s[FirstSize(s)..]) else s
  }

  /** A packet in the middle of a byte string, seen from its start. */
  lemma CompleteFrom(s: Bytes, at: nat)
    requires at <= |s|
    ensures Complete(s[at..], 0) <==> Complete(s, at)
    ensures HeaderAt(s[at..], 0).raw == HeaderAt(s, at).raw
  {
    var t := s[at..];
    if Complete(s, at) {
      assert t[0..HeaderAt(s, at).raw.PacketSize()] == s[at..at + HeaderAt(s, at).raw.PacketSize()];
      HeaderIsLocal(s, at, t, 0);
    }
    if Complete(t, 0) {
      assert s[at..at + FirstSize(t)] == t[0..FirstSize(t)];
      HeaderIsLocal(t, 0, s, at);
    }
  }

  /** The first packet of a stream stays the first packet when more bytes arrive. */
  lemma FirstStays(s: Bytes, t: Bytes)
    requires Complete(s, 0)
    ensures Complete(s + t, 0) && FirstSize(s + t) == FirstSize(s)
    ensures (s + t)[..FirstSize(s)] == s[..FirstSize(s)] && (s + t)[FirstSize(s)..] == s[FirstSize(s)..] + t
  {
    assert (s + t)[0..FirstSize(s)] == s[0..FirstSize(s)];
    HeaderIsLocal(s, 0, s + t, 0);
  }

  /** Chunking independence: dividing what was left, once more bytes have come, continues the division of
      all the bytes. */
  lemma {:induction false} FramesContinue(s: Bytes, t: Bytes)
    ensures Frames(s + t) == Frames(s) + Frames(Rest(s) + t)
    ensures Rest(s + t) == Rest(Rest(s) + t)
    decreases |s|
  {
    hide HeaderAt;
    if Complete(s, 0) {
      FirstStays(s, t);
      FramesContinue(s[FirstSize(s)..], t);
    }
  }

  lemma FirstIsPacket(s: Bytes)
    requires Complete(s, 0)
    ensures IsPacket(s[..FirstSize(s)])
  {
    assert s[..FirstSize(s)][0..FirstSize(s)] == s[0..FirstSize(s)];
    HeaderIsLocal(s, 0, s[..FirstSize(s)], 0);
  }

  /** Frames and Rest lose nothing, and no complete packet is left behind. */
  lemma {:induction false} FramesPartition(s: Bytes)
    ensures Concat(Frames(s)) + Rest(s) == s && !Complete(Rest(s), 0)
    decreases |s|
  {
    hide HeaderAt, Concat;
    if Complete(s, 0) {
      var first, more := s[..FirstSize(s)], s[FirstSize(s)..];
      FramesPartition(more);
      ConcatCons(first, Frames(more));
      assert first + Concat(Frames(more)) + Rest(more) == first + (Concat(Frames(more)) + Rest(more));
    } else {
      StartBounds([]);
      assert Concat([]) + s == s;
    }
  }

  lemma {:induction false} FramesArePackets(s: Bytes)
    ensures forall i :: 0 <= i < |Frames(s)| ==> IsPacket(Frames(s)[i])
    decreases |s|
  {
    hide HeaderAt, IsPacket;
    if Complete(s, 0) {
      FirstIsPacket(s);
      FramesArePackets(s[FirstSize(s)..]);
    }
  }

  /** There is no other way to divide a stream into packets and an incomplete rest. */
  lemma {:induction false} FramesUnique(packets: seq<Bytes>, rest: Bytes)
    requires forall i :: 0 <= i < |packets| ==> IsPacket(packets[i])
    requires !Complete(rest, 0)
    ensures Frames(Concat(packets) + rest) == packets && Rest(Concat(packets) + rest) == rest
  {
    hide HeaderAt;
    if packets == [] {
      assert Concat(packets) + rest == rest;
    } else {
      var more := Concat(packets[1..]) + rest;
      assert Concat(packets) + rest == packets[0] + more;
      FirstStays(packets[0], more);
      assert packets[0][..|packets[0]|] == packets[0] && packets[0][|packets[0]|..] + more == more;
      FramesUnique(packets[1..], rest);
    }
  }

  function Encodings(codec: Codec, vs: seq<Value>): (es: seq<Bytes>)
    ensures |es| == |vs|
    ensures forall i :: 0 <= i < |vs| ==> es[i] == Encode(codec, vs[i])
  {
    if vs == [] then [] else [Encode(codec, vs[0])] + Encodings(codec, vs[1..])
  }

  lemma {:induction false} ConcatEncodings(codec: Codec, vs: seq<Value>)
    ensures Concat(Encodings(codec, vs)) == EncodeAll(codec, vs)
  {
    if vs != [] {
      assert Encodings(codec, vs)[1..] == Encodings(codec, vs[1..]);
      ConcatEncodings(codec, vs[1..]);
    }
  }

  /** A stream of written values divides into exactly one packet per value. */
  lemma FramesOfEncoded(codec: Codec, vs: seq<Value>)
    requires forall i :: 0 <= i < |vs| ==> Fits(codec, vs[i])
    ensures Frames(EncodeAll(codec, vs)) == Encodings(codec, vs) && Rest(EncodeAll(codec, vs)) == []
  {
    var packets := Encodings(codec, vs);
    forall i | 0 <= i < |packets| ensures IsPacket(packets[i]) {
      HeaderOfEncoded(codec, vs[i], packets[i], 0);
    }
    ConcatEncodings(codec, vs);
    FramesUnique(packets, []);
    assert EncodeAll(codec, vs) + [] == EncodeAll(codec, vs);
  }
}

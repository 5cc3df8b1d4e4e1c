/** src/socket/ipcPacketSocketDecoder.ts: packets out of a stream that arrives in arbitrary pieces. */
module Decoding {
  import opened ByteStrings
  import opened ListReading
  import opened Reading
  import opened Headers
  import opened Packets
  import opened Framing

  /** What the decoder emits: 'packet', 'error' and 'packet[]'. */
  datatype Event =
    | PacketEvent(packet: IpcPacketBufferList)
    | ErrorEvent
    | PacketsEvent(packets: seq<IpcPacketBufferList>)

  function PacketEvents(packets: seq<IpcPacketBufferList>): (es: seq<Event>)
    ensures |es| == |packets|
    ensures forall i :: 0 <= i < |es| ==> es[i] == PacketEvent(packets[i])
  {
    seq(|packets|, i requires 0 <= i < |packets| => PacketEvent(packets[i]))
  }

  /** The packets hold exactly these frames, one each; they and their chunk arrays are owned, and
      no two of them share an array. */
  ghost predicate Hold(packets: seq<IpcPacketBufferList>, frames: seq<Bytes>, owned: set<object>)
    reads owned
  {
    && |packets| == |frames|
    && (forall i :: 0 <= i < |packets| ==> Holding(packets[i], frames[i], owned))
    && (forall i, j :: 0 <= i < j < |packets| ==> packets[i] != packets[j])
    && (forall i, j :: 0 <= i < j < |packets| && packets[i] in owned && packets[j] in owned ==>
          packets[i].buffers != packets[j].buffers)
  }

  ghost predicate Holding(p: IpcPacketBufferList, frame: Bytes, owned: set<object>)
    reads owned
  {
    p in owned && p.buffers in owned && p.Holds() && p.Bytes() == frame
  }

  lemma HoldNothing(owned: set<object>)
    ensures Hold([], [], owned) && PacketEvents([]) == []
  {
  }

  lemma HoldOne(packets: seq<IpcPacketBufferList>, frames: seq<Bytes>, owned: set<object>, p: IpcPacketBufferList)
    requires Hold(packets, frames, owned) && p.Holds() && p !in owned && p.buffers !in owned
    ensures Hold(packets + [p], frames + [p.Bytes()], owned + {p, p.buffers})
  {
    var owned' := owned + {p, p.buffers};
    forall i | 0 <= i < |packets| ensures Holding(packets[i], frames[i], owned') {
      assert Holding(packets[i], frames[i], owned);
    }
    assert Holding(p, p.Bytes(), owned');
  }

  /** A packet taken at the cursor is the first frame of what is unread. */
  lemma TakeFrame(s: Bytes, at: nat, next: nat)
    requires at <= next <= |s| && IsPacket(s[at..next])
    ensures Frames(s[at..]) == [s[at..next]] + Frames(s[next..])
    ensures Rest(s[at..]) == Rest(s[next..])
    ensures at < next
  {
    var first, more := s[at..next], s[next..];
    FirstStays(first, more);
    assert s[at..] == first + more;
    assert first[..|first|] == first && first[|first|..] + more == more;
  }

  /** No packet at the cursor: nothing more can be taken. */
  lemma NoFrame(s: Bytes, at: nat)
    requires at <= |s| && !Complete(s, at)
    ensures Frames(s[at..]) == [] && Rest(s[at..]) == s[at..]
  {
    CompleteFrom(s, at);
  }

  /** The frames taken so far, and what is still unread, divide what was unread at first. */
  ghost predicate Taking(unread: Bytes, taken: seq<Bytes>, now: Bytes) {
    Frames(unread) == taken + Frames(now) && Rest(unread) == Rest(now)
  }

  lemma TakingStarts(unread: Bytes)
    ensures Taking(unread, [], unread)
  {
  }

  lemma TakingGoesOn(unread: Bytes, taken: seq<Bytes>, now: Bytes, frame: Bytes, next: Bytes)
    requires Taking(unread, taken, now)
    requires Frames(now) == [frame] + Frames(next) && Rest(now) == Rest(next)
    ensures Taking(unread, taken + [frame], next)
  {
    assert taken + ([frame] + Frames(next)) == taken + [frame] + Frames(next);
  }

  lemma TakingEnds(unread: Bytes, taken: seq<Bytes>, now: Bytes)
    requires Taking(unread, taken, now) && Frames(now) == []
    ensures Frames(unread) == taken && Rest(unread) == Rest(now)
  {
    assert taken + [] == taken;
  }

  lemma UnreadGrows(s: Bytes, at: int, data: Bytes)
    ensures 0 <= at <= |s| ==> (s + data)[at..] == s[at..] + data
  {
  }

  lemma OneMoreEvent(packets: seq<IpcPacketBufferList>, p: IpcPacketBufferList)
    ensures PacketEvents(packets + [p]) == PacketEvents(packets) + [PacketEvent(p)]
  {
  }

  class IpcPacketSocketDecoder {
    var bufferListReader: BufferListReader
    var packet: IpcPacketBufferList
    var events: seq<Event>

    /** All the bytes handled so far. */
    ghost var received: Bytes

    ghost predicate Valid()
      reads this, bufferListReader, bufferListReader.buffers
    {
      && bufferListReader.Valid()
      && bufferListReader.Unread() == Rest(received)
    }

    constructor ()
      ensures Valid() && received == [] && events == []
      ensures fresh(bufferListReader) && fresh(bufferListReader.buffers) && fresh(packet)
    {
      var chunks := new ChunkList([]);
      bufferListReader := new BufferListReader(chunks, 0);
      packet := new IpcPacketBufferList();
      events := [];
      received := [];
    }

    /** One turn of the loop of handleData: decodes into the current packet and, when that succeeds,
        prepares the next one. */
    method TakePacket() returns (taken: IpcPacketBufferList?)
      requires bufferListReader.Valid()
      modifies this`packet, packet, bufferListReader, bufferListReader.buffers
      ensures bufferListReader.Valid() && bufferListReader.buffers == old(bufferListReader.buffers)
      ensures taken == null ==>
                && Frames(old(bufferListReader.Unread())) == []
                && bufferListReader.Unread() == Rest(old(bufferListReader.Unread()))
                && bufferListReader.offset == old(bufferListReader.offset)
                && packet == old(packet) && packet.raw.IsNotValid()
      ensures taken != null ==>
                && taken == old(packet) && fresh(packet) && fresh(taken.buffers) && taken.Holds()
                && Frames(old(bufferListReader.Unread())) == [taken.Bytes()] + Frames(bufferListReader.Unread())
                && Rest(old(bufferListReader.Unread())) == Rest(bufferListReader.Unread())
                && |bufferListReader.Unread()| < |old(bufferListReader.Unread())|
    {
      ghost var all, at := bufferListReader.Bytes(), bufferListReader.offset;
      var r := List(bufferListReader);
      assert r.Valid();
      assert bufferListReader.Unread() == all[at..];
      var complete := packet.DecodeFromReader(r);
      assert bufferListReader.Bytes() == all && at <= bufferListReader.offset <= |all|;
      assert bufferListReader.Unread() == all[bufferListReader.offset..];
      if complete {
        TakeFrame(all, at, bufferListReader.offset);
        taken := packet;
        packet := new IpcPacketBufferList();
      } else {
        NoFrame(all, at);
        taken := null;
      }
    }

    /** The loop of handleData: takes every complete packet off the reader. */
    method TakePackets() returns (packets: seq<IpcPacketBufferList>, ghost owned: set<object>)
      requires bufferListReader.Valid()
      modifies this`packet, this`events, packet, bufferListReader, bufferListReader.buffers
      ensures bufferListReader.Valid() && bufferListReader.buffers == old(bufferListReader.buffers)
      ensures Hold(packets, Frames(old(bufferListReader.Unread())), owned)
      ensures bufferListReader.Unread() == Rest(old(bufferListReader.Unread()))
      ensures fresh(owned - {old(packet)}) && packet !in owned && (fresh(packet) || packet == old(packet))
      ensures packet.raw.IsNotValid()
      ensures events == old(events) + PacketEvents(packets)
      ensures packets == [] ==> bufferListReader.offset == old(bufferListReader.offset)
    {
      hide Coordinates, HeaderAt, Frames, Rest, Hold, Taking, PacketEvents;
      ghost var unread := bufferListReader.Unread();
      ghost var taken: seq<Bytes> := [];
      packets, owned := [], {};
      TakingStarts(unread);
      HoldNothing(owned);
      while true
        invariant bufferListReader.Valid()
        invariant bufferListReader == old(bufferListReader) && bufferListReader.buffers == old(bufferListReader.buffers)
        invariant Taking(unread, taken, bufferListReader.Unread())
        invariant Hold(packets, taken, owned)
        invariant packet == old(packet) || fresh(packet)
        invariant packet !in owned && fresh(owned - {old(packet)})
        invariant events == old(events) + PacketEvents(packets)
        invariant packets == [] ==> bufferListReader.offset == old(bufferListReader.offset)
        decreases |bufferListReader.Unread()|
      {
        ghost var now := bufferListReader.Unread();
        var next := TakePacket();
        assert Hold(packets, taken, owned);
        if next == null {
          TakingEnds(unread, taken, now);
          break;
        }
        TakingGoesOn(unread, taken, now, next.Bytes(), bufferListReader.Unread());
        HoldOne(packets, taken, owned, next);
        OneMoreEvent(packets, next);
        owned := owned + {next, next.buffers};
        taken := taken + [next.Bytes()];
        packets := packets + [next];
        events := events + [PacketEvent(next)];
      }
    }

    /** After each arrival, however the stream was cut: the packets emitted are the complete packets that
        the bytes received so far add, one object each, in order; what is unread is exactly what does not
        make a packet yet; and no complete packet waits. The 'error' event is emitted every time, because
        an incomplete header and an invalid one are the same record. After packets were emitted the bytes
        still held although consumed are bounded; otherwise the cursor has not moved. */
    method HandleData(data: Bytes) returns (packets: seq<IpcPacketBufferList>, ghost owned: set<object>)
      requires Valid()
      modifies this, packet, bufferListReader, bufferListReader.buffers
      ensures Valid() && received == old(received) + data
      ensures bufferListReader == old(bufferListReader)
      ensures bufferListReader.buffers == old(bufferListReader.buffers) || fresh(bufferListReader.buffers)
      ensures packet !in owned && (fresh(packet) || packet == old(packet)) && fresh(owned - {old(packet)})
      ensures bufferListReader.buffers !in owned
      ensures Hold(packets, Frames(old(bufferListReader.Unread()) + data), owned)
      ensures Frames(received) == Frames(old(received)) + Frames(old(bufferListReader.Unread()) + data)
      ensures events == old(events) + PacketEvents(packets) + [ErrorEvent]
                        + (if packets != [] then [PacketsEvent(packets)] else [])
      ensures if packets == [] then bufferListReader.offset == old(bufferListReader.offset) else
                || bufferListReader.offset <= ReduceThreshold
                || (bufferListReader.buffers.items != [] && bufferListReader.offset <= |bufferListReader.buffers.items[0]| / 2)
    {
      hide Coordinates, HeaderAt, Frames, Rest, Hold;
      FramesContinue(received, data);
      UnreadGrows(bufferListReader.Bytes(), bufferListReader.offset, data);
      CoordinatesInRange(bufferListReader.buffers.items, bufferListReader.offset,
                         bufferListReader.curBufferIndex, bufferListReader.curBufferOffset);
      bufferListReader.AppendBuffer(data);
      received := received + data;
      packets, owned := TakePackets();
      if packet.raw.IsNotValid() {
        events := events + [ErrorEvent];
      }
      if |packets| > 0 {
        events := events + [PacketsEvent(packets)];
        bufferListReader.Reduce();
      }
    }
  }
}

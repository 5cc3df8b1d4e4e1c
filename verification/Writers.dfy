/** src/buffer/bufferListWriter.ts, src/socket/socketWriter.ts, src/socket/socketBufferWriter.ts: the list
    writers; src/buffer/bufferWriter.ts: the fixed-buffer writer; src/buffer/bufferWriterSize.ts: the counter. */
module Writing {
  import opened ByteStrings
  import opened Codecs

  /** net.Socket, as far as writers see it: the buffers handed to it, in order. */
  class Socket {
    var writes: seq<Bytes>

    constructor ()
      ensures writes == []
    {
      writes := [];
    }

    ghost function Sent(): Bytes
      reads this
    {
      Concat(writes)
    }

    method Write(buffer: Bytes)
      modifies this
      ensures writes == old(writes) + [buffer]
    {
      writes := writes + [buffer];
    }
  }

  /** The four subclasses of BufferListWriterBase: BufferListWriter, SocketWriter, DelayedSocketWriter
      and BufferedSocketWriter. */
  datatype Strategy = InMemory | Immediate | Delayed | Buffered(bufferSize: nat)

  class ListWriter {
    const strategy: Strategy
    const socket: Socket?
    var buffers: seq<Bytes>
    var length: nat
    var context: int

    /** The tracked length is the number of pending bytes; an immediate writer keeps none. */
    ghost predicate Valid()
      reads this
    {
      && (socket == null <==> strategy.InMemory?)
      && length == |Concat(buffers)|
      && (strategy.Immediate? ==> buffers == [])
    }

    /** The buffers handed to the socket so far. */
    ghost function Writes(): seq<Bytes>
      reads this, socket
    {
      if socket == null then [] else socket.writes
    }

    ghost function Sent(): Bytes
      reads this, socket
    {
      Concat(Writes())
    }

    ghost function Pending(): Bytes
      reads this
    {
      Concat(buffers)
    }

    /** What has been written: the bytes on the wire followed by the bytes waiting. */
    ghost function Produced(): Bytes
      reads this, socket
    {
      Sent() + Pending()
    }

    /** The bytes b were written, and nothing else happened. A buffered writer sends nothing inside an open
        context while less than its buffer size is pending. */
    twostate predicate Wrote(b: Bytes)
      reads this, socket
    {
      && Valid() && Produced() == old(Produced()) + b && context == old(context)
      && (strategy.InMemory? ==> Pending() == old(Pending()) + b)
      && (strategy.Buffered? && old(context) > 0 && old(length) + |b| < strategy.bufferSize ==> Writes() == old(Writes()))
    }

    /** Neither what is sent nor what waits has changed. */
    twostate predicate Untouched()
      reads this, socket
    {
      Writes() == old(Writes()) && buffers == old(buffers)
    }

    /** Every buffer that waited has been handed to the socket, one by one and in order. */
    twostate predicate Flushed()
      reads this, socket
    {
      Writes() == old(Writes()) + old(buffers) && buffers == []
    }

    /** What every popContext leaves: a delayed writer has sent everything; a buffered one has, or is
        inside a context with less than its buffer size pending. */
    ghost predicate Settled()
      reads this
    {
      match strategy
      case InMemory => true
      case Immediate => buffers == []
      case Delayed => buffers == []
      case Buffered(size) => buffers == [] || (context != 0 && length < size)
    }

    constructor (strategy: Strategy, socket: Socket?)
      requires socket == null <==> strategy.InMemory?
      ensures this.strategy == strategy && this.socket == socket
      ensures Valid() && Settled() && buffers == [] && context == 0
    {
      this.strategy := strategy;
      this.socket := socket;
      buffers, length, context := [], 0, 0;
    }

    method AppendBuffer(buffer: Bytes)
      requires Valid()
      modifies this, socket
      ensures Wrote(buffer)
      ensures if strategy.Immediate? then Writes() == old(Writes()) + [buffer]
              else Writes() == old(Writes()) && buffers == old(buffers) + [buffer]
    {
      ghost var sent, pending := Sent(), Pending();
      if strategy.Immediate? {
        ConcatPush(socket.writes, buffer);
        socket.Write(buffer);
        assert pending == [];
        assert sent + buffer + [] == sent + [] + buffer;
      } else {
        ConcatPush(buffers, buffer);
        buffers := buffers + [buffer];
        length := length + |buffer|;
        assert sent + (pending + buffer) == sent + pending + buffer;
      }
    }

    /** The immediate writer ignores the total length and sends the buffers one by one. */
    method AppendBuffers(list: seq<Bytes>, totalLength: nat)
      requires Valid() && totalLength == |Concat(list)|
      modifies this, socket
      ensures Wrote(Concat(list))
      ensures if strategy.Immediate? then Writes() == old(Writes()) + list
              else Writes() == old(Writes()) && buffers == old(buffers) + list
    {
      ghost var sent, pending := Sent(), Pending();
      if strategy.Immediate? {
        ConcatAppend(socket.writes, list);
        SendAll(list);
        assert sent + Concat(list) + [] == sent + [] + Concat(list);
      } else {
        ConcatAppend(buffers, list);
        buffers := buffers + list;
        length := length + totalLength;
        assert sent + (pending + Concat(list)) == sent + pending + Concat(list);
      }
    }

    /** The loops that hand a list of buffers to the socket. */
    method SendAll(list: seq<Bytes>)
      requires socket != null
      modifies socket
      ensures socket.writes == old(socket.writes) + list
    {
      var i := 0;
      while i < |list|
        invariant i <= |list| && socket.writes == old(socket.writes) + list[..i]
      {
        socket.Write(list[i]);
        i := i + 1;
      }
      assert list[..i] == list;
    }

    method WriteUInt16(n: nat)
      requires Valid()
      modifies this, socket
      ensures Wrote(UInt16(n))
    {
      AppendBuffer(UInt16(n));
    }

    method WriteUInt32(n: nat)
      requires Valid()
      modifies this, socket
      ensures Wrote(UInt32(n))
    {
      AppendBuffer(UInt32(n));
    }

    /** The content of another writer, which must be an in-memory one. */
    method Write(other: ListWriter)
      requires Valid() && other != this && other.Valid() && other.strategy.InMemory?
      modifies this, socket
      ensures Wrote(other.Pending()) && other.Pending() == old(other.Pending())
    {
      AppendBuffers(other.buffers, other.length);
    }

    method PushContext()
      requires Valid()
      modifies this
      ensures Valid() && Untouched()
      ensures context == if strategy.Buffered? then old(context) + 1 else old(context)
    {
      if strategy.Buffered? {
        context := context + 1;
      }
    }

    /** Flushing never loses or reorders bytes, and leaves the writer settled. A buffered writer flushes if and
        only if the outermost context closes or its buffer size is reached. */
    method PopContext()
      requires Valid()
      modifies this, socket
      ensures Valid() && Produced() == old(Produced()) && Settled()
      ensures context == if strategy.Buffered? then old(context) - 1 else old(context)
      ensures match strategy
              case InMemory => Untouched()
              case Immediate => Untouched()
              case Delayed => Flushed()
              case Buffered(size) => if old(context) == 1 || old(length) >= size then Flushed() else Untouched()
    {
      match strategy
      case InMemory =>
      case Immediate =>
      case Delayed => FlushBuffer();
      case Buffered(size) =>
        context := context - 1;
        if context == 0 {
          FlushBuffer();
        } else if length >= size {
          FlushBuffer();
        }
    }

    method FlushBuffer()
      requires Valid() && socket != null
      modifies this`buffers, this`length, socket
      ensures Valid() && Produced() == old(Produced()) && Flushed() && Sent() == old(Produced())
    {
      ConcatAppend(socket.writes, buffers);
      SendAll(buffers);
      buffers := [];
      length := 0;
      assert Sent() + [] == Sent();
    }

    /** The buffer getter: collapses the list to one buffer without changing the pending bytes. */
    method Buffer() returns (buffer: Bytes)
      requires Valid()
      modifies this`buffers
      ensures Valid() && buffer == Pending() == old(Pending()) && |buffers| <= 1
    {
      if |buffers| == 0 {
        return [];
      }
      if |buffers| > 1 {
        ConcatOne(Concat(buffers));
        buffers := [Concat(buffers)];
      }
      assert buffers == [buffers[0]];
      ConcatOne(buffers[0]);
      buffer := buffers[0];
    }
  }

  // ---- runs of a list writer ---------------------------------------------------------------------------

  datatype WriteOp = Put(buffer: Bytes) | PutAll(list: seq<Bytes>) | Open | Close

  function Written(ops: seq<WriteOp>): Bytes {
    if ops == [] then []
    else
      (match ops[0] case Put(b) => b case PutAll(list) => Concat(list) case _ => []) + Written(ops[1..])
  }

  /** Starting depth levels deep, ops never closes a context that is not open. */
  predicate Balanced(ops: seq<WriteOp>, depth: nat) {
    if ops == [] then true
    else match ops[0]
         case Open => Balanced(ops[1..], depth + 1)
         case Close => depth > 0 && Balanced(ops[1..], depth - 1)
         case _ => Balanced(ops[1..], depth)
  }

  /** Whether closing a context flushes: the wire sees bytes then, and for an immediate writer at every write. */
  predicate Flushes(strategy: Strategy, context: int, length: nat) {
    match strategy
    case InMemory => false
    case Immediate => false
    case Delayed => true
    case Buffered(size) => context == 1 || length >= size
  }

  /** One write or context change: the bytes produced grow by what is written; what waits reaches the socket
      when a closing flushes, and otherwise, but for an immediate writer, nothing does. */
  method PerformWrite(w: ListWriter, op: WriteOp)
    requires w.Valid() && w.context >= 0 && (op.Close? && w.strategy.Buffered? ==> w.context > 0)
    modifies w, w.socket
    ensures w.Valid() && w.Produced() == old(w.Produced()) + Written([op])
    ensures w.context == old(w.context) + (if !w.strategy.Buffered? then 0
                                           else if op.Open? then 1 else if op.Close? then -1 else 0)
    ensures op.Close? ==>
              if Flushes(w.strategy, old(w.context), old(w.length)) then w.Flushed() else w.Untouched()
    ensures !op.Close? && !w.strategy.Immediate? ==> w.Writes() == old(w.Writes())
    ensures op.Close? ==>
              match w.strategy
              case InMemory => true
              case Buffered(size) => w.Pending() == [] || (w.context > 0 && |w.Pending()| < size)
              case _ => w.Pending() == []
  {
    assert [op][1..] == [];
    assert Written([]) == [];
    match op {
      case Put(b) => w.AppendBuffer(b);
      case PutAll(list) => w.AppendBuffers(list, |Concat(list)|);
      case Open => w.PushContext();
      case Close => w.PopContext();
    }
  }

  /** The run leaves at least one of the contexts open around it open. */
  predicate StaysInside(ops: seq<WriteOp>, depth: nat) {
    if ops == [] then depth > 0
    else match ops[0]
         case Open => StaysInside(ops[1..], depth + 1)
         case Close => depth > 1 && StaysInside(ops[1..], depth - 1)
         case _ => depth > 0 && StaysInside(ops[1..], depth)
  }

  /** The strategies agree: over every balanced run, the bytes sent followed by the bytes pending are the
      bytes written, in order, whichever of the four writers is used; the tracked length is the number
      of pending bytes. A buffered writer sends nothing as long as the run stays inside an open context
      and less than its buffer size has been written. */
  method RunWrites(w: ListWriter, ops: seq<WriteOp>, ghost depth: nat)
    requires w.Valid() && w.context >= 0 && Balanced(ops, depth)
    requires w.strategy.Buffered? ==> w.context == depth
    modifies w, w.socket
    ensures w.Produced() == old(w.Produced()) + Written(ops) && w.Valid() && w.length == |w.Pending()|
    ensures w.strategy.Buffered? && StaysInside(ops, depth) && old(w.length) + |Written(ops)| < w.strategy.bufferSize ==>
              w.Writes() == old(w.Writes())
    decreases |ops|
  {
    hide Concat;
    if ops != [] {
      ghost var produced := w.Produced();
      PerformWrite(w, ops[0]);
      WrittenInTwo(ops);
      assert produced + Written([ops[0]]) + Written(ops[1..]) == produced + Written(ops);
      RunWrites(w, ops[1..], if ops[0].Open? then depth + 1 else if ops[0].Close? then depth - 1 else depth);
    }
  }

  lemma WrittenInTwo(ops: seq<WriteOp>)
    requires ops != []
    ensures Written(ops) == Written([ops[0]]) + Written(ops[1..])
  {
    assert [ops[0]][1..] == [];
  }

  /** A fixed buffer filled in place. */
  class BufferWriter {
    const buffer: array<Byte>
    var offset: nat

    constructor (size: nat)
      ensures fresh(buffer) && buffer.Length == size && offset == 0
    {
      buffer := new Byte[size];
      offset := 0;
    }

    /** The bytes b were stored at the cursor, and the rest of the buffer is untouched. */
    twostate predicate Stored(b: Bytes)
      reads this, buffer
    {
      && offset == old(offset) + |b| <= buffer.Length
      && buffer[..offset] == old(buffer[..offset]) + b
      && buffer[offset..] == old(buffer[offset + |b|..])
    }

    method WriteByte(b: Byte)
      requires offset + 1 <= buffer.Length
      modifies this, buffer
      ensures Stored([b])
    {
      buffer[offset] := b;
      offset := offset + 1;
    }

    method WriteBytes(b: Bytes)
      requires offset + |b| <= buffer.Length
      modifies this, buffer
      ensures Stored(b)
    {
      var start := offset;
      ghost var before := buffer[..];
      while offset < start + |b|
        invariant start <= offset <= start + |b|
        invariant buffer[..start] == before[..start]
        invariant buffer[start..offset] == b[..offset - start]
        invariant buffer[offset..] == before[offset..]
      {
        buffer[offset] := b[offset - start];
        offset := offset + 1;
        assert buffer[start..offset] == buffer[start..offset - 1] + [b[offset - 1 - start]];
        assert b[..offset - start] == b[..offset - 1 - start] + [b[offset - 1 - start]];
      }
      assert buffer[..offset] == buffer[..start] + buffer[start..offset];
      assert b[..|b|] == b;
    }

    method WriteUInt16(n: nat)
      requires offset + 2 <= buffer.Length
      modifies this, buffer
      ensures Stored(UInt16(n))
    {
      WriteBytes(UInt16(n));
    }

    method WriteUInt32(n: nat)
      requires offset + 4 <= buffer.Length
      modifies this, buffer
      ensures Stored(UInt32(n))
    {
      WriteBytes(UInt32(n));
    }
  }

  /** Counts bytes instead of writing them. */
  class BufferWriterSize {
    var length: nat

    constructor ()
      ensures length == 0
    {
      length := 0;
    }

    method WriteByte()
      modifies this
      ensures length == old(length) + 1
    {
      length := length + 1;
    }

    method WriteUInt16()
      modifies this
      ensures length == old(length) + 2
    {
      length := length + 2;
    }

    method WriteUInt32()
      modifies this
      ensures length == old(length) + 4
    {
      length := length + 4;
    }

    method WriteDouble()
      modifies this
      ensures length == old(length) + 8
    {
      length := length + 8;
    }

    method WriteString(codec: Codec, text: Text)
      modifies this
      ensures length == old(length) + codec.byteLength(text)
    {
      length := length + codec.byteLength(text);
    }

    /** writeBuffer without a range, and writeArrayBuffer. */
    method WriteBuffer(data: Bytes)
      modifies this
      ensures length == old(length) + |data|
    {
      length := length + |data|;
    }
  }
}

/** src/buffer/reader.ts: the Reader interface, as the sum of its two implementations. */
module Reading {
  import opened ByteStrings
  import opened Codecs
  import opened ListReading
  import opened FlatReading

  datatype Reader = Flat(flat: BufferReader) | List(list: BufferListReader) {

    ghost function Repr(): set<object>
      reads match this case Flat(f) => {f as object} case List(l) => {l as object}
    {
      match this
      case Flat(f) => {f}
      case List(l) => {l, l.buffers}
    }

    /** All the bytes, read or not. */
    ghost function Data(): Bytes
      reads Repr()
    {
      match this
      case Flat(f) => f.buffer
      case List(l) => l.Bytes()
    }

    ghost function Chunks(): seq<Bytes>
      reads Repr()
    {
      match this
      case Flat(f) => [f.buffer]
      case List(l) => l.buffers.items
    }

    ghost function Stamp(): nat
      reads Repr()
    {
      match this
      case Flat(f) => 0
      case List(l) => l.timestamp
    }

    function Offset(): int
      reads match this case Flat(f) => {f as object} case List(l) => {l as object}
    {
      match this
      case Flat(f) => f.offset
      case List(l) => l.offset
    }

    ghost predicate Valid()
      reads Repr()
      ensures Valid() ==> 0 <= Offset() <= |Data()|
    {
      match this
      case Flat(f) => f.Valid()
      case List(l) =>
        if l.Valid() then
          CoordinatesInRange(l.buffers.items, l.offset, l.curBufferIndex, l.curBufferOffset);
          true
        else false
    }

    /** Nothing but the cursor, and for the list reader the division into chunks, has changed. */
    twostate predicate Kept()
      reads Repr()
    {
      && Repr() == old(Repr())
      && Data() == old(Data())
      && match this
         case Flat(f) => f.contexts == old(f.contexts)
         case List(l) => l.Grew()
    }

    predicate CheckEOF(step: int)
      reads match this case Flat(f) => {f as object} case List(l) => {l as object}
    {
      match this
      case Flat(f) => f.CheckEOF(step)
      case List(l) => l.CheckEOF(step)
    }

    method GetContext() returns (c: Context)
      requires Valid()
      ensures Good(c, Stamp(), Chunks()) && c.offset == Offset() && c.timestamp == Stamp()
    {
      match this
      case Flat(f) =>
        ConcatOne(f.buffer);
        c := Context(0, f.offset, f.offset, 0);
      case List(l) =>
        c := l.GetContext();
    }

    method SetContext(c: Context)
      requires Good(c, Stamp(), Chunks()) && Restorable(c, Stamp(), Chunks())
      requires List? ==> list.Counted()
      modifies Repr()
      ensures Valid() && Kept() && Offset() == c.offset && Stamp() == old(Stamp()) && Chunks() == old(Chunks())
    {
      match this
      case Flat(f) =>
        ConcatOne(f.buffer);
        f.offset := c.offset;
      case List(l) =>
        l.SetContext(c);
    }

    /** Packets skip forwards only, which never crashes. */
    method Skip(step: nat) returns (moved: bool)
      requires Valid()
      modifies Repr()
      ensures Valid() && Kept()
      ensures Offset() == SkipTo(Data(), old(Offset()), step)
      ensures moved == (Offset() != old(Offset()))
    {
      match this
      case Flat(f) =>
        moved := f.Seek(f.offset + Stride(step));
      case List(l) =>
        var r := l.Skip(step);
        moved := r.Moved?;
    }

    /** None is the exception thrown when bytes are missing, after which only the bytes are known. */
    method ReadNumber(byteSize: nat) returns (r: Option<Bytes>)
      requires Valid() && 0 < byteSize
      modifies Repr()
      ensures Kept()
      ensures r.Some? <==> old(Offset()) + byteSize <= |Data()|
      ensures r.Some? ==> Valid() && Offset() == old(Offset()) + byteSize
                          && r.value == Data()[old(Offset())..Offset()]
    {
      match this
      case Flat(f) => r := f.ReadNumber(byteSize);
      case List(l) => r := l.ReadNumber(byteSize);
    }

    method ReadByte() returns (r: Option<Byte>)
      requires Valid()
      modifies Repr()
      ensures Kept()
      ensures r.Some? <==> old(Offset()) < |Data()|
      ensures r.Some? ==> Valid() && Offset() == old(Offset()) + 1 && r.value == Data()[old(Offset())]
    {
      match this
      case Flat(f) => r := f.ReadByte();
      case List(l) => r := l.ReadByte();
    }

    method ReadUInt16() returns (r: Option<nat>)
      requires Valid()
      modifies Repr()
      ensures Kept()
      ensures r.Some? <==> old(Offset()) + 2 <= |Data()|
      ensures r.Some? ==> Valid() && Offset() == old(Offset()) + 2 && r.value == UInt16At(Data(), old(Offset()))
    {
      var bytes := ReadNumber(2);
      r := if bytes.None? then None else Some(UInt16At(bytes.value, 0));
    }

    method ReadUInt32() returns (r: Option<nat>)
      requires Valid()
      modifies Repr()
      ensures Kept()
      ensures r.Some? <==> old(Offset()) + 4 <= |Data()|
      ensures r.Some? ==> Valid() && Offset() == old(Offset()) + 4 && r.value == UInt32At(Data(), old(Offset()))
    {
      var bytes := ReadNumber(4);
      r := if bytes.None? then None else Some(UInt32At(bytes.value, 0));
    }

    method ReadString(codec: Codec, len: Option<int>) returns (r: Text)
      requires Valid()
      modifies Repr()
      ensures Valid() && Kept()
      ensures Offset() == AdjustEnd(old(Offset()), |Data()|, len) && old(Offset()) <= Offset()
      ensures r == codec.TextOf(Data()[old(Offset())..Offset()])
    {
      match this
      case Flat(f) => r := f.ReadString(codec, len);
      case List(l) => r := l.ReadString(codec, len);
    }

    method ReadBuffer(len: nat) returns (r: Bytes)
      requires Valid()
      modifies Repr()
      ensures Valid() && Kept()
      ensures Offset() == AdjustEnd(old(Offset()), |Data()|, Some(len)) && old(Offset()) <= Offset()
      ensures r == Data()[old(Offset())..Offset()]
    {
      match this
      case Flat(f) => r := f.ReadBuffer(len);
      case List(l) => r := l.ReadBuffer(Some(len));
    }

    method ReadBufferList(len: nat) returns (r: seq<Bytes>)
      requires Valid()
      modifies Repr()
      ensures Valid() && Kept() && |r| >= 1
      ensures Offset() == AdjustEnd(old(Offset()), |Data()|, Some(len)) && old(Offset()) <= Offset()
      ensures Concat(r) == Data()[old(Offset())..Offset()]
    {
      match this
      case Flat(f) =>
        var bytes := f.ReadBuffer(len);
        ConcatOne(bytes);
        r := [bytes];
      case List(l) =>
        r := l.ReadBufferList(Some(len));
    }
  }

  /** Where a skip of step bytes from at ends: an offset at or past the end is refused. */
  function SkipTo(s: Bytes, at: int, step: nat): int {
    var target := at + (if step == 0 then 1 else step);
    if target < |s| then target else at
  }
}

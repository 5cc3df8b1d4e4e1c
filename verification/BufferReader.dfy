/** src/buffer/bufferReader.ts: a cursor over one flat buffer. */
module FlatReading {
  import opened ByteStrings
  import opened Codecs
  import opened ListReading

  class BufferReader {
    var buffer: Bytes
    var offset: int
    var contexts: seq<int>

    ghost predicate Valid()
      reads this
    {
      0 <= offset <= |buffer|
    }

    constructor (buffer: Bytes, offset: int)
      ensures this.buffer == buffer && this.offset == offset && contexts == []
    {
      this.buffer := buffer;
      this.offset := offset;
      contexts := [];
    }

    predicate CheckEOF(step: int)
      reads this
    {
      offset + step > |buffer|
    }

    method Pushd() returns (depth: nat)
      modifies this`contexts
      ensures contexts == old(contexts) + [offset] && depth == |contexts|
    {
      contexts := contexts + [offset];
      depth := |contexts|;
    }

    method Popd() returns (depth: nat)
      requires contexts != []
      modifies this`contexts, this`offset
      ensures contexts == old(contexts[..|contexts| - 1]) && depth == |contexts|
      ensures offset == old(contexts[|contexts| - 1])
    {
      offset := contexts[|contexts| - 1];
      contexts := contexts[..|contexts| - 1];
      depth := |contexts|;
    }

    /** Unlike the list reader, refuses its own offset when that is the end. */
    method Seek(target: int) returns (moved: bool)
      modifies this`offset
      ensures moved <==> 0 <= target < |buffer|
      ensures offset == if moved then target else old(offset)
    {
      if target < 0 || target >= |buffer| {
        return false;
      }
      offset := target;
      return true;
    }

    method ReadNumber(byteSize: nat) returns (r: Option<Bytes>)
      requires Valid()
      modifies this`offset
      ensures offset == old(offset) + byteSize
      ensures r.Some? <==> offset <= |buffer|
      ensures r.Some? ==> r.value == buffer[old(offset)..offset]
    {
      var start := offset;
      offset := offset + byteSize;
      if offset > |buffer| {
        return None;
      }
      r := Some(buffer[start..offset]);
    }

    /** None is JavaScript's undefined, read past the end. */
    method ReadByte() returns (r: Option<Byte>)
      requires Valid()
      modifies this`offset
      ensures offset == old(offset) + 1
      ensures r == if old(offset) < |buffer| then Some(buffer[old(offset)]) else None
    {
      r := if offset < |buffer| then Some(buffer[offset]) else None;
      offset := offset + 1;
    }

    method ReadBuffer(len: nat) returns (r: Bytes)
      requires Valid()
      modifies this`offset
      ensures Valid() && offset == AdjustEnd(old(offset), |buffer|, Some(len)) && old(offset) <= offset
      ensures r == buffer[old(offset)..offset]
    {
      r := Clip(buffer, offset, len);
      offset := offset + |r|;
    }

    method ReadString(codec: Codec, len: Option<int>) returns (r: Text)
      requires Valid()
      modifies this`offset
      ensures Valid() && offset == AdjustEnd(old(offset), |buffer|, len) && old(offset) <= offset
      ensures r == codec.TextOf(buffer[old(offset)..offset])
    {
      var end := AdjustEnd(offset, |buffer|, len);
      if offset == end {
        r := [];
      } else {
        var start := offset;
        offset := end;
        r := codec.decodeText(buffer[start..end]);
      }
    }

    /** The length is -1 for an empty 'C' content, whose code byte is then its footer; the view and
        the copy are both empty in that case. */
    method ReadArrayBuffer(len: int) returns (r: Bytes)
      requires Valid() && -1 <= len
      modifies this`offset
      ensures Valid() && offset == AdjustEnd(old(offset), |buffer|, Some(len)) && old(offset) <= offset
      ensures r == buffer[old(offset)..offset]
    {
      r := ReadBuffer(if len < 0 then 0 else len);
    }
  }
}

/** src/buffer/bufferListReader.ts: a cursor over a mutable list of chunks. */
module ListReading {
  import opened ByteStrings
  import opened Codecs

  /** A JavaScript array of Buffers; the reader and a packet may share one. */
  class ChunkList {
    var items: seq<Bytes>

    constructor (items: seq<Bytes>)
      ensures this.items == items
    {
      this.items := items;
    }
  }

  datatype Context = Context(timestamp: nat, offset: int, curOffset: int, curBufferIndex: int)

  /** What a seek did: moved (or stayed), refused the target, or met a missing chunk (a TypeError). */
  datatype SeekResult = Moved | Refused | Crashed

  /** The end of a read of len bytes at offset; a missing length means all the rest. */
  function AdjustEnd(offset: int, maxLen: int, len: Option<int>): (end: int)
    ensures offset <= maxLen ==> offset <= end <= maxLen
    ensures len.None? ==> end == maxLen
    ensures offset <= maxLen && len.Some? && len.value <= 0 ==> end == offset
    ensures offset <= maxLen && len.Some? && 0 <= len.value <= maxLen - offset ==> end - offset == len.value
    ensures offset <= maxLen && len.Some? && len.value > maxLen - offset ==> end == maxLen
  {
    match len
    case None => maxLen
    case Some(n) => if n <= 0 then offset else if offset + n > maxLen then maxLen else offset + n
  }

  /** What a skip adds to the offset: a missing or zero step counts as one. */
  function Stride(step: int): int {
    if step == 0 then 1 else step
  }

  /** The three coordinates name the same place, which need not lie inside chunk idx. */
  ghost predicate Aligned(chunks: seq<Bytes>, offset: int, idx: int, off: int) {
    0 <= idx <= |chunks| && Start(chunks, idx) + off == offset
  }

  /** The weak invariant of the cursor: inside chunk idx, at its very end (after a merge), or past the
      last chunk (after an exact fit). */
  ghost predicate Coordinates(chunks: seq<Bytes>, offset: int, idx: int, off: int) {
    && Aligned(chunks, offset, idx, off)
    && 0 <= off
    && (if idx == |chunks| then off == 0 else off <= |chunks[idx]|)
  }

  /** Between two states with the same timestamp chunks were only added at the end; the byte string
      only ever grew. */
  ghost predicate Evolved(stamp: nat, chunks: seq<Bytes>, stamp': nat, chunks': seq<Bytes>) {
    && stamp <= stamp'
    && (stamp == stamp' ==> chunks <= chunks')
    && Concat(chunks) <= Concat(chunks')
  }

  /** A saved context is still good: its offset exists, and unless a merge intervened so do its indices. */
  ghost predicate Good(c: Context, stamp: nat, chunks: seq<Bytes>) {
    && c.timestamp <= stamp
    && 0 <= c.offset <= |Concat(chunks)|
    && (c.timestamp == stamp ==> Coordinates(chunks, c.offset, c.curBufferIndex, c.curOffset))
  }

  predicate EndsFull(chunks: seq<Bytes>) {
    chunks != [] && chunks[|chunks| - 1] != []
  }

  /** Exactly when setContext brings a good context back: its chunk index is not stale, or its byte
      exists and is not the last byte of a list that ends in an empty chunk. */
  predicate Restorable(c: Context, stamp: nat, chunks: seq<Bytes>) {
    c.timestamp == stamp
    || (c.offset < |Concat(chunks)|
        && (c.offset == |Concat(chunks)| - 1 ==> EndsFull(chunks)))
  }

  lemma CoordinatesInRange(chunks: seq<Bytes>, offset: int, idx: int, off: int)
    requires Coordinates(chunks, offset, idx, off)
    ensures 0 <= offset <= |Concat(chunks)| && 0 <= idx <= |chunks|
    ensures idx == |chunks| ==> offset == |Concat(chunks)|
  {
    StartBounds(chunks);
    if idx < |chunks| { ChunkPlace(chunks, idx); }
  }

  lemma GoodSurvives(c: Context, stamp: nat, chunks: seq<Bytes>, stamp': nat, chunks': seq<Bytes>)
    requires Good(c, stamp, chunks) && Evolved(stamp, chunks, stamp', chunks')
    ensures Good(c, stamp', chunks')
  {
    if c.timestamp == stamp' {
      assert chunks'[..c.curBufferIndex] == chunks[..c.curBufferIndex];
    }
  }

  lemma StartIsZero(chunks: seq<Bytes>, offset: int, off: int)
    requires Coordinates(chunks, offset, 0, off)
    ensures offset == off
  {
    StartBounds(chunks);
  }

  /** Dropping the chunks before the cursor drops the bytes before the cursor's chunk. */
  lemma DropChunks(chunks: seq<Bytes>, offset: int, idx: int, off: int)
    requires Coordinates(chunks, offset, idx, off) && idx < |chunks|
    ensures 0 <= idx && 0 <= off <= offset <= |Concat(chunks)|
    ensures Concat(chunks[idx..]) == Concat(chunks)[offset - off..]
    ensures Coordinates(chunks[idx..], off, 0, off)
    ensures off <= |Concat(chunks[idx..])| && Concat(chunks[idx..])[off..] == Concat(chunks)[offset..]
  {
    hide Concat;
    ChunkPlace(chunks, idx);
    ConcatSplit(chunks, idx);
    StartBounds(chunks[idx..]);
  }

  /** Cutting the consumed front off the first chunk. */
  lemma TrimFirst(chunks: seq<Bytes>, off: nat)
    requires chunks != [] && off <= |chunks[0]|
    ensures var chunks' := chunks[0 := chunks[0][off..]];
            && off <= |Concat(chunks)| && Concat(chunks') == Concat(chunks)[off..]
            && Coordinates(chunks', 0, 0, 0)
  {
    var chunks' := chunks[0 := chunks[0][off..]];
    assert chunks'[1..] == chunks[1..];
    assert chunks[0][off..] + Concat(chunks[1..]) == (chunks[0] + Concat(chunks[1..]))[off..];
    StartBounds(chunks');
  }

  /** A read of len bytes that stays inside chunk idx. */
  lemma ReadInside(chunks: seq<Bytes>, offset: int, idx: int, off: int, len: nat)
    requires Coordinates(chunks, offset, idx, off) && idx < |chunks| && off + len <= |chunks[idx]|
    ensures offset + len <= |Concat(chunks)|
    ensures At(chunks[idx], off, Concat(chunks)[offset..offset + len])
    ensures At(Concat(chunks), offset - off, chunks[idx])
    ensures off + len == |chunks[idx]| ==> Coordinates(chunks, offset + len, idx + 1, 0)
    ensures off + len < |chunks[idx]| ==> Coordinates(chunks, offset + len, idx, off + len)
  {
    hide Concat;
    ChunkPlace(chunks, idx);
    SubSlice(Concat(chunks), Start(chunks, idx), Start(chunks, idx + 1), off, off + len);
  }

  /** A read that straddles chunks idx..end, which are merged into one. */
  lemma ReadAcross(chunks: seq<Bytes>, offset: int, idx: int, off: int, len: nat, end: int)
    requires Coordinates(chunks, offset, idx, off) && idx < end <= |chunks|
    requires off + len <= |Concat(chunks[idx..end])| || end == |chunks|
    ensures var merged := Concat(chunks[idx..end]);
            var chunks' := chunks[..idx] + [merged] + chunks[end..];
            && Concat(chunks') == Concat(chunks)
            && off <= |merged| && At(Concat(chunks), offset - off, merged)
            && (if offset + len <= |Concat(chunks)| then
                  && Coordinates(chunks', offset + len, idx, off + len)
                  && At(merged, off, Concat(chunks)[offset..offset + len])
                else |merged| < off + len)
  {
    hide Concat;
    StartBounds(chunks);
    MergeChunks(chunks, idx, end);
    RangeLength(chunks, idx, end);
    ChunkPlace(chunks, idx);
    RangeLength(chunks, idx + 1, end);
    RangeLength(chunks, idx, end - 1);
    ChunkPlace(chunks, end - 1);
    if offset + len <= |Concat(chunks)| {
      SubSlice(Concat(chunks), Start(chunks, idx), Start(chunks, end), off, off + len);
    }
  }

  /** Where a merge that starts at chunk idx and needs that many bytes stops: at the first chunk that completes
      them, or at the end of the list. */
  function MergeEnd(chunks: seq<Bytes>, idx: nat, needed: int): (end: nat)
    requires idx < |chunks|
    ensures idx < end <= |chunks|
    decreases |chunks| - idx
  {
    if idx + 1 == |chunks| || needed <= |chunks[idx]| then idx + 1
    else MergeEnd(chunks, idx + 1, needed - |chunks[idx]|)
  }

  /** No chunk is merged that is not needed, and no chunk that is needed is left out. */
  lemma {:induction false} MergeIsTight(chunks: seq<Bytes>, idx: nat, needed: int)
    requires idx < |chunks|
    ensures var end := MergeEnd(chunks, idx, needed);
            && (end > idx + 1 ==> |Concat(chunks[idx..end - 1])| < needed)
            && (end < |chunks| ==> needed <= |Concat(chunks[idx..end])|)
    decreases |chunks| - idx
  {
    var end := MergeEnd(chunks, idx, needed);
    assert chunks[idx..end][1..] == chunks[idx + 1..end];
    if end > idx + 1 {
      assert chunks[idx..end - 1][1..] == chunks[idx + 1..end - 1];
      MergeIsTight(chunks, idx + 1, needed - |chunks[idx]|);
      if end == idx + 2 {
        assert chunks[idx + 1..end - 1] == [];
      }
    } else {
      assert chunks[idx + 1..end] == [];
    }
  }

  /** The chunks after a merge: those before idx and those behind the merged ones are as they were. */
  ghost predicate Merged(chunks: seq<Bytes>, idx: nat, needed: int, chunks': seq<Bytes>) {
    idx < |chunks|
    && var end := MergeEnd(chunks, idx, needed);
       chunks' == chunks[..idx] + [Concat(chunks[idx..end])] + chunks[end..]
  }

  /** The views a list read of len bytes returns: one for each chunk it touches, none of them copied. */
  function Pieces(chunks: seq<Bytes>, idx: nat, off: nat, len: nat): seq<Bytes>
    decreases |chunks| - idx
  {
    if idx >= |chunks| || off > |chunks[idx]| then []
    else
      var piece := Clip(chunks[idx], off, len);
      [piece] + if |piece| < len then Pieces(chunks, idx + 1, 0, len - |piece|) else []
  }

  lemma PiecesStep(chunks: seq<Bytes>, idx: nat, off: nat, len: nat)
    requires idx < |chunks| && off <= |chunks[idx]|
    ensures var piece := Clip(chunks[idx], off, len);
            Pieces(chunks, idx, off, len)
            == [piece] + if |piece| < len then Pieces(chunks, idx + 1, 0, len - |piece|) else []
  {
  }

  lemma MorePieces(chunks: seq<Bytes>, idx: nat, r: seq<Bytes>, left: nat)
    requires idx < |chunks|
    ensures var piece := Clip(chunks[idx], 0, left);
            r + Pieces(chunks, idx, 0, left)
            == r + [piece] + if |piece| < left then Pieces(chunks, idx + 1, 0, left - |piece|) else []
  {
    hide Pieces, Clip;
    PiecesStep(chunks, idx, 0, left);
  }

  /** Where a cursor stands that has just moved over a byte: strictly inside a chunk, or before the chunk
      that follows that byte's chunk. */
  ghost predicate BehindByte(chunks: seq<Bytes>, idx: int, off: int) {
    if off == 0 then 0 < idx <= |chunks| && chunks[idx - 1] != []
    else 0 <= idx < |chunks| && 0 < off < |chunks[idx]|
  }

  /** Buffer.subarray(from, from + len), clipped to the chunk. */
  function Clip(chunk: Bytes, from: nat, len: nat): Bytes
    requires from <= |chunk|
  {
    if from + len <= |chunk| then chunk[from..from + len] else chunk[from..]
  }

  lemma ClipPlace(chunks: seq<Bytes>, offset: int, idx: int, off: int, len: nat)
    requires Coordinates(chunks, offset, idx, off) && idx < |chunks| && offset + len <= |Concat(chunks)|
    ensures var piece := Clip(chunks[idx], off, len);
            && |piece| <= len
            && piece == Concat(chunks)[offset..offset + |piece|]
            && Coordinates(chunks, offset + |piece|, idx, off + |piece|)
            && (|piece| < len ==> off + |piece| == |chunks[idx]|)
  {
    hide Concat;
    var piece := Clip(chunks[idx], off, len);
    ReadInside(chunks, offset, idx, off, |piece|);
    assert chunks[idx][off..off + |piece|] == piece;
  }

  lemma ChunkEnd(chunks: seq<Bytes>, offset: int, idx: nat)
    requires idx < |chunks| && Coordinates(chunks, offset, idx, |chunks[idx]|)
    ensures Coordinates(chunks, offset, idx + 1, 0)
  {
    ChunkPlace(chunks, idx);
  }

  /** The pieces r cut so far hold the bytes from..at, and the cursor stands behind the last one. */
  ghost predicate Cut(chunks: seq<Bytes>, idx: int, off: int, r: seq<Bytes>, from: int, at: int) {
    && 0 <= idx < |chunks|
    && Coordinates(chunks, at, idx, off)
    && 0 <= from <= at <= |Concat(chunks)|
    && Concat(r) == Concat(chunks)[from..at]
  }

  lemma FirstPiece(chunks: seq<Bytes>, offset: int, idx: int, off: int, len: nat)
    requires Coordinates(chunks, offset, idx, off) && 0 < len && offset + len <= |Concat(chunks)|
    ensures idx < |chunks| && 0 <= off <= |chunks[idx]| && 0 <= idx
    ensures var piece := Clip(chunks[idx], off, len);
            && |piece| <= len
            && Cut(chunks, idx, off + |piece|, [piece], offset, offset + |piece|)
            && (|piece| < len ==> off + |piece| == |chunks[idx]|)
  {
    CoordinatesInRange(chunks, offset, idx, off);
    ClipPlace(chunks, offset, idx, off, len);
    ConcatOne(Clip(chunks[idx], off, len));
  }

  /** From the end of chunk idx a list read goes on with a piece of the next chunk. */
  lemma NextPiece(chunks: seq<Bytes>, idx: nat, r: seq<Bytes>, from: int, at: int, left: nat)
    requires idx < |chunks| && Cut(chunks, idx, |chunks[idx]|, r, from, at)
    requires 0 < left && at + left <= |Concat(chunks)|
    ensures idx + 1 < |chunks|
    ensures var piece := Clip(chunks[idx + 1], 0, left);
            && |piece| <= left
            && Cut(chunks, idx + 1, |piece|, r + [piece], from, at + |piece|)
            && (|piece| < left ==> |piece| == |chunks[idx + 1]|)
  {
    hide Concat;
    ChunkPlace(chunks, idx);
    StartBounds(chunks);
    ClipPlace(chunks, at, idx + 1, 0, left);
    var piece := Clip(chunks[idx + 1], 0, left);
    ConcatPush(r, piece);
    assert Concat(chunks)[from..at + |piece|] == Concat(chunks)[from..at] + Concat(chunks)[at..at + |piece|];
  }

  const ReduceThreshold: nat := 100000

  class BufferListReader {
    var buffers: ChunkList
    var length: int
    var offset: int
    var curBufferIndex: int
    var curBufferOffset: int
    var timestamp: nat
    var contexts: seq<Context>

    ghost function Bytes(): Bytes
      reads this, buffers
    {
      Concat(buffers.items)
    }

    ghost predicate Counted()
      reads this, buffers
    {
      length == |Bytes()|
    }

    ghost predicate Valid()
      reads this, buffers
    {
      Counted() && Coordinates(buffers.items, offset, curBufferIndex, curBufferOffset)
    }

    /** Every open pushd can be looked at again. */
    ghost predicate SavedGood()
      reads this, buffers
    {
      forall i :: 0 <= i < |contexts| ==> Good(contexts[i], timestamp, buffers.items)
    }

    twostate predicate Grew()
      reads this, buffers
    {
      buffers == old(buffers) && contexts == old(contexts)
      && Evolved(old(timestamp), old(buffers.items), timestamp, buffers.items)
    }

    /** How _consolidate moves: inside the chunk, past it on an exact fit, or inside or to the end of the
        chunk that a merge put in its place. Only a merge advances the timestamp. */
    twostate predicate Landed(len: nat)
      requires 0 <= old(curBufferIndex) < |old(buffers.items)|
      reads this, buffers
    {
      var size, reached := |old(buffers.items[curBufferIndex])|, old(curBufferOffset) + len;
      if reached > size then
        && timestamp == old(timestamp) + 1 && curBufferIndex == old(curBufferIndex) && curBufferOffset == reached
        && Merged(old(buffers.items), curBufferIndex, reached, buffers.items)
      else
        && timestamp == old(timestamp) && buffers.items == old(buffers.items)
        && curBufferIndex == old(curBufferIndex) + (if reached == size then 1 else 0)
        && curBufferOffset == if reached == size then 0 else reached
    }

    /** What a read of n bytes does to the cursor and the chunks; a read of nothing touches neither. */
    twostate predicate Advanced(n: nat)
      requires n > 0 ==> 0 <= old(curBufferIndex) < |old(buffers.items)|
      reads this, buffers
    {
      if n > 0 then Landed(n)
      else
        && timestamp == old(timestamp) && buffers.items == old(buffers.items)
        && curBufferIndex == old(curBufferIndex) && curBufferOffset == old(curBufferOffset)
    }

    constructor (buffers: ChunkList, start: int)
      ensures this.buffers == buffers && buffers.items == old(buffers.items)
      ensures Valid() && contexts == [] && timestamp == 0
      ensures offset == if 0 <= start < |Concat(buffers.items)| then start else 0
      ensures if offset == 0 then curBufferIndex == curBufferOffset == 0
              else curBufferIndex < |buffers.items| && curBufferOffset < |buffers.items[curBufferIndex]|
    {
      this.buffers := buffers;
      length := 0;
      offset, curBufferIndex, curBufferOffset := 0, 0, 0;
      timestamp := 0;
      contexts := [];
      new;
      var i := 0;
      while i < |buffers.items|
        invariant i <= |buffers.items| && length == Start(buffers.items, i)
        invariant offset == curBufferIndex == curBufferOffset == 0 && this.buffers == buffers
        invariant timestamp == 0 && contexts == []
      {
        ChunkPlace(buffers.items, i);
        length := length + |buffers.items[i]|;
        i := i + 1;
      }
      StartBounds(buffers.items);
      var _ := Seek(start);
    }

    method Reset()
      modifies this
      ensures Valid() && Bytes() == [] && offset == 0 && contexts == [] && timestamp == old(timestamp)
      ensures fresh(buffers) && buffers.items == []
    {
      offset := 0;
      contexts := [];
      buffers := new ChunkList([]);
      length, curBufferOffset, curBufferIndex := 0, 0, 0;
    }

    method AppendBuffer(buffer: Bytes)
      requires Valid()
      modifies this, buffers
      ensures Valid() && Grew() && timestamp == old(timestamp) && offset == old(offset)
      ensures buffers.items == old(buffers.items) + [buffer]
      ensures Bytes() == old(Bytes()) + buffer
    {
      ghost var was := buffers.items;
      buffers.items := buffers.items + [buffer];
      length := length + |buffer|;
      ConcatPush(was, buffer);
      assert buffers.items[..curBufferIndex] == was[..curBufferIndex];
    }

    predicate CheckEOF(step: int)
      reads this
    {
      offset + step > length
    }

    method GetContext() returns (c: Context)
      ensures c == Context(timestamp, offset, curBufferOffset, curBufferIndex)
      ensures Valid() ==> Good(c, timestamp, buffers.items)
    {
      if Valid() {
        CoordinatesInRange(buffers.items, offset, curBufferIndex, curBufferOffset);
      }
      c := Context(timestamp, offset, curBufferOffset, curBufferIndex);
    }

    /** Restores a context. The first two clauses say exactly which contexts come back, the third where the
        others leave the cursor: at the last byte of the last chunk, if there is one. */
    method SetContext(c: Context)
      requires Counted() && Good(c, timestamp, buffers.items)
      modifies this`offset, this`curBufferIndex, this`curBufferOffset
      ensures Restorable(c, timestamp, buffers.items) ==> Valid() && offset == c.offset
      ensures !Restorable(c, timestamp, buffers.items) ==> !(Valid() && offset == c.offset)
      ensures !Restorable(c, timestamp, buffers.items) ==>
                && offset == length - 1 && curBufferIndex == |buffers.items| - 1
                && (buffers.items != [] ==> curBufferOffset == |buffers.items[curBufferIndex]| - 1)
      ensures c.timestamp == timestamp ==> curBufferIndex == c.curBufferIndex && curBufferOffset == c.curOffset
    {
      if c.timestamp == timestamp {
        offset, curBufferIndex, curBufferOffset := c.offset, c.curBufferIndex, c.curOffset;
      } else {
        var n := |buffers.items|;
        StartBounds(buffers.items);
        if c.offset < length / 2 {
          offset, curBufferIndex, curBufferOffset := 0, 0, 0;
        } else {
          offset := length - 1;
          curBufferIndex := n - 1;
          if n == 0 {
            return;  // a TypeError: there is no last chunk
          }
          ChunkPlace(buffers.items, n - 1);
          curBufferOffset := |buffers.items[n - 1]| - 1;
        }
        var _ := Seek(c.offset);
      }
    }

    method Pushd() returns (depth: nat)
      requires Valid()
      modifies this`contexts
      ensures contexts == old(contexts) + [Context(timestamp, offset, curBufferOffset, curBufferIndex)]
      ensures depth == |contexts|
      ensures old(SavedGood()) ==> SavedGood()
    {
      var c := GetContext();
      contexts := contexts + [c];
      depth := |contexts|;
    }

    method Popd() returns (depth: nat)
      requires Counted() && contexts != [] && SavedGood()
      modifies this`offset, this`curBufferIndex, this`curBufferOffset, this`contexts
      ensures contexts == old(contexts[..|contexts| - 1]) && depth == |contexts| && SavedGood()
      ensures var c := old(contexts[|contexts| - 1]);
              && (Restorable(c, timestamp, buffers.items) <==> Valid() && offset == c.offset)
              && (c.timestamp == timestamp ==> curBufferIndex == c.curBufferIndex && curBufferOffset == c.curOffset)
    {
      var c := contexts[|contexts| - 1];
      contexts := contexts[..|contexts| - 1];
      SetContext(c);
      depth := |contexts|;
    }

    /** Crashes exactly when asked for a different, existing offset from past the last chunk. */
    method Seek(target: int) returns (r: SeekResult)
      requires Counted() && Aligned(buffers.items, offset, curBufferIndex, curBufferOffset)
      modifies this`offset, this`curBufferIndex, this`curBufferOffset
      ensures r.Crashed? <==>
                target != old(offset) && 0 <= target < length && old(curBufferIndex) == |buffers.items|
      ensures r.Crashed? ==> !Valid() && offset == target && curBufferIndex == old(curBufferIndex)
      ensures r.Refused? <==> target != old(offset) && !(0 <= target < length)
      ensures target == old(offset) || r.Refused? ==>
                offset == old(offset) && curBufferIndex == old(curBufferIndex)
                && curBufferOffset == old(curBufferOffset)
      ensures r.Moved? && target != old(offset) ==>
                Valid() && offset == target && curBufferIndex < |buffers.items|
                && curBufferOffset < |buffers.items[curBufferIndex]|
    {
      if offset != target {
        if target < 0 || target >= length {
          return Refused;
        }
        curBufferOffset := curBufferOffset + (target - offset);
        offset := target;
        var chunks := buffers.items;
        StartBounds(chunks);
        if curBufferIndex == |chunks| {
          return Crashed;
        }
        while curBufferOffset >= |chunks[curBufferIndex]|
          invariant offset == target && 0 <= curBufferIndex < |chunks|
          invariant Start(chunks, curBufferIndex) + curBufferOffset == target
          decreases |chunks| - curBufferIndex
        {
          ChunkPlace(chunks, curBufferIndex);
          curBufferOffset := curBufferOffset - |chunks[curBufferIndex]|;
          curBufferIndex := curBufferIndex + 1;
        }
        while curBufferOffset < 0
          invariant offset == target && 0 <= curBufferIndex < |chunks|
          invariant Start(chunks, curBufferIndex) + curBufferOffset == target
          invariant curBufferOffset < |chunks[curBufferIndex]|
          decreases curBufferIndex
        {
          curBufferIndex := curBufferIndex - 1;
          ChunkPlace(chunks, curBufferIndex);
          curBufferOffset := curBufferOffset + |chunks[curBufferIndex]|;
        }
      }
      return Moved;
    }

    /** A forward skip never crashes: past the last chunk every later offset is out of range. */
    method Skip(step: int) returns (r: SeekResult)
      requires Valid()
      modifies this`offset, this`curBufferIndex, this`curBufferOffset
      ensures var target := old(offset) + (if step == 0 then 1 else step);
              && (r.Crashed? <==> 0 <= target < length && old(curBufferIndex) == |buffers.items|)
              && (r.Refused? <==> !(0 <= target < length))
              && (!r.Crashed? <==> Valid())
              && (!r.Crashed? ==> offset == if r.Moved? then target else old(offset))
      ensures 0 <= step ==> !r.Crashed?
    {
      CoordinatesInRange(buffers.items, offset, curBufferIndex, curBufferOffset);
      r := Seek(offset + Stride(step));
    }

    /** The bytes not read yet. */
    ghost function Unread(): Bytes
      reads this, buffers
    {
      if 0 <= offset <= |Bytes()| then Bytes()[offset..] else []
    }

    /** Empties the reader at the end of the data. Otherwise drops the chunks before the cursor and, when the
        first chunk is long and mostly consumed, copies its unread part. Invisible to the reader: the unread
        bytes stay, and the offset drops by exactly the bytes dropped. The clause before the last bounds what
        is kept although consumed. */
    method Reduce()
      requires Valid()
      modifies this, buffers
      ensures Valid() && timestamp == old(timestamp)
      ensures Unread() == old(Unread())
      ensures |Bytes()| - offset == old(|Bytes()| - offset) && 0 <= offset <= old(offset)
      ensures contexts == if old(offset) == old(length) then [] else old(contexts)
      ensures old(offset) == old(length) ==> fresh(buffers) && buffers.items == []
      ensures offset <= 100000 || (buffers.items != [] && offset <= |buffers.items[0]| / 2)
      ensures old(offset) != old(length) ==>
                && buffers == old(buffers) && old(curBufferIndex) < |old(buffers.items)|
                && Reduced(old(buffers.items[curBufferIndex..]), old(curBufferOffset))
    {
      hide Concat, Coordinates, Reduced;
      CoordinatesInRange(buffers.items, offset, curBufferIndex, curBufferOffset);
      if CheckEOF(1) {
        Reset();
      } else {
        if curBufferIndex > 0 {
          DropConsumed();
        } else {
          StartIsZero(buffers.items, offset, curBufferOffset);
        }
        TrimConsumed();
      }
    }

    /** What reduce makes of the chunks from the cursor's on, and of the offset off in the first of them: a first
        chunk of more than 100000 bytes, more than half of them consumed, is replaced by its unread part. */
    ghost predicate Reduced(chunks: seq<Bytes>, off: int)
      requires chunks != []
      reads this, buffers
    {
      && curBufferIndex == 0 && offset == curBufferOffset
      && if |chunks[0]| > 100000 && off > |chunks[0]| / 2 then
           off <= |chunks[0]| && buffers.items == [chunks[0][off..]] + chunks[1..] && offset == 0
         else
           buffers.items == chunks && offset == off
    }

    /** The first step of Reduce: drops whole chunks. */
    method DropConsumed()
      requires Valid() && curBufferIndex < |buffers.items|
      modifies this`length, this`offset, this`curBufferIndex, buffers
      ensures Valid() && curBufferIndex == 0 && offset == curBufferOffset == old(curBufferOffset)
      ensures buffers.items == old(buffers.items[curBufferIndex..]) && buffers.items != []
      ensures Unread() == old(Unread()) && |Bytes()| - offset == old(|Bytes()| - offset) && offset <= old(offset)
    {
      hide Concat, Coordinates;
      ghost var chunks := buffers.items;
      DropChunks(chunks, offset, curBufferIndex, curBufferOffset);
      buffers.items := buffers.items[curBufferIndex..];
      length := length - (offset - curBufferOffset);
      offset := curBufferOffset;
      curBufferIndex := 0;
    }

    /** The second step of Reduce: copies the unread part of a long, mostly consumed first chunk. */
    method TrimConsumed()
      requires Valid() && curBufferIndex == 0 < |buffers.items| && offset == curBufferOffset
      modifies this`length, this`offset, this`curBufferOffset, buffers
      ensures Valid() && buffers.items != [] && Reduced(old(buffers.items), old(curBufferOffset))
      ensures Unread() == old(Unread()) && |Bytes()| - offset == old(|Bytes()| - offset) && offset <= old(offset)
      ensures offset <= 100000 || offset <= |buffers.items[0]| / 2
    {
      hide Concat;
      StartBounds(buffers.items);
      var curBuffer := buffers.items[0];
      if |curBuffer| > ReduceThreshold && curBufferOffset > |curBuffer| / 2 {
        TrimFirst(buffers.items, curBufferOffset);
        buffers.items := buffers.items[0 := curBuffer[curBufferOffset..]];
        length := length - curBufferOffset;
        offset := offset - curBufferOffset;
        curBufferOffset := 0;
      }
    }

    /** Collects chunks from idx on until they hold needed bytes, or to the end of the list. */
    static method Gather(chunks: seq<Bytes>, idx: nat, needed: int) returns (merging: seq<Bytes>, end: nat)
      requires idx < |chunks| && |chunks[idx]| < needed
      ensures end == MergeEnd(chunks, idx, needed) && merging == chunks[idx..end]
      ensures needed <= |Concat(merging)| || end == |chunks|
    {
      merging, end := [], idx;
      var bufferLength := 0;
      while end < |chunks|
        invariant idx <= end <= |chunks|
        invariant merging == chunks[idx..end] && bufferLength == |Concat(merging)|
        invariant MergeEnd(chunks, idx, needed)
                  == if end < |chunks| then MergeEnd(chunks, end, needed - bufferLength) else end
      {
        ConcatPush(merging, chunks[end]);
        assert chunks[idx..end + 1] == chunks[idx..end] + [chunks[end]];
        merging := merging + [chunks[end]];
        bufferLength := bufferLength + |chunks[end]|;
        end := end + 1;
        if needed <= bufferLength {
          break;
        }
      }
    }

    /** Advances by len and returns the chunk, merged when the read straddles several, that holds the
        bytes read; they start at the old chunk offset. None is the TypeError past the last chunk. When
        bytes are missing the chunks are merged all the same, and the cursor ends out of range. */
    method Consolidate(len: nat) returns (chunk: Option<Bytes>)
      requires Valid()
      modifies this, buffers
      ensures Counted() && Bytes() == old(Bytes()) && Grew() && length == old(length)
      ensures offset == old(offset) + len
      ensures chunk.None? <==> old(curBufferIndex) == |old(buffers.items)|
      ensures chunk.None? ==> old(offset) == length
      ensures chunk.Some? ==> Landed(len) && old(curBufferOffset) <= |chunk.value|
      ensures chunk.Some? ==> At(Bytes(), old(offset) - old(curBufferOffset), chunk.value)
      ensures chunk.Some? && old(offset) + len <= length ==>
                Valid() && At(chunk.value, old(curBufferOffset), Bytes()[old(offset)..offset])
      ensures chunk.Some? && old(offset) + len > length ==> |chunk.value| < old(curBufferOffset) + len
    {
      hide Concat;
      ghost var items := buffers.items;
      var idx, start := curBufferIndex, curBufferOffset;
      CoordinatesInRange(items, offset, idx, start);
      curBufferOffset := curBufferOffset + len;
      offset := offset + len;
      if idx == |buffers.items| {
        return None;
      }
      var curBuffer := buffers.items[idx];
      if curBufferOffset > |curBuffer| {
        var merging, end := Gather(buffers.items, idx, curBufferOffset);
        ReadAcross(items, old(offset), idx, start, len, end);
        curBuffer := Concat(merging);
        buffers.items := buffers.items[..idx] + [curBuffer] + buffers.items[end..];
        timestamp := timestamp + 1;
      } else {
        ReadInside(items, old(offset), idx, start, len);
        if curBufferOffset == |curBuffer| {
          curBufferIndex := curBufferIndex + 1;
          curBufferOffset := 0;
        }
      }
      chunk := Some(curBuffer);
    }

    /** readUInt16, readUInt32 and readDouble before their bytes are interpreted. None is the exception
        thrown when bytes are missing. */
    method ReadNumber(byteSize: nat) returns (r: Option<Bytes>)
      requires Valid() && 0 < byteSize
      modifies this, buffers
      ensures Counted() && Bytes() == old(Bytes()) && Grew() && length == old(length)
      ensures r.Some? <==> old(offset) + byteSize <= length
      ensures offset == old(offset) + byteSize
      ensures r.Some? ==> Valid() && r.value == Bytes()[old(offset)..offset]
      ensures r.Some? ==> old(curBufferIndex) < |old(buffers.items)| && Landed(byteSize)
    {
      hide Concat, Merged, MergeEnd;
      CoordinatesInRange(buffers.items, offset, curBufferIndex, curBufferOffset);
      var start := curBufferOffset;
      var chunk := Consolidate(byteSize);
      if chunk.None? || start + byteSize > |chunk.value| {
        return None;
      }
      r := Some(chunk.value[start..start + byteSize]);
    }

    /** None when there is no byte left: JavaScript's undefined, or a TypeError past the last chunk. */
    method ReadByte() returns (r: Option<Byte>)
      requires Valid()
      modifies this, buffers
      ensures Counted() && Bytes() == old(Bytes()) && Grew() && length == old(length)
      ensures r.Some? <==> old(offset) < length
      ensures r.Some? ==> Valid() && offset == old(offset) + 1 && r.value == Bytes()[old(offset)]
      ensures r.Some? ==> old(curBufferIndex) < |old(buffers.items)| && Landed(1)
    {
      hide Concat, Merged, MergeEnd;
      CoordinatesInRange(buffers.items, offset, curBufferIndex, curBufferOffset);
      var start := curBufferOffset;
      var chunk := Consolidate(1);
      if chunk.None? || start >= |chunk.value| {
        return None;
      }
      AtIndex(chunk.value, start, Bytes()[old(offset)..offset], 0);
      r := Some(chunk.value[start]);
    }

    /** readBuffer and slice, which differ only in the view they return; readString before decoding. */
    method ReadBuffer(len: Option<int>) returns (r: Bytes)
      requires Valid()
      modifies this, buffers
      ensures Valid() && Bytes() == old(Bytes()) && Grew() && offset <= length == old(length)
      ensures offset == AdjustEnd(old(offset), length, len) && 0 <= old(offset) <= offset
      ensures r == Bytes()[old(offset)..offset]
      ensures offset > old(offset) ==> 0 <= old(curBufferIndex) < |old(buffers.items)|
      ensures Advanced(offset - old(offset))
    {
      hide Concat, Merged, MergeEnd, Landed;
      CoordinatesInRange(buffers.items, offset, curBufferIndex, curBufferOffset);
      var end := AdjustEnd(offset, length, len);
      if offset == end {
        r := [];
      } else {
        var start, n := curBufferOffset, end - offset;
        var chunk := Consolidate(n);
        if start == 0 && n == |chunk.value| {
          r := chunk.value;
        } else {
          r := chunk.value[start..start + n];
        }
      }
    }

    method ReadString(codec: Codec, len: Option<int>) returns (r: Text)
      requires Valid()
      modifies this, buffers
      ensures Valid() && Bytes() == old(Bytes()) && Grew() && offset <= length == old(length)
      ensures offset == AdjustEnd(old(offset), length, len) && 0 <= old(offset) <= offset
      ensures r == if offset == old(offset) then [] else codec.decodeText(Bytes()[old(offset)..offset])
      ensures offset > old(offset) ==> 0 <= old(curBufferIndex) < |old(buffers.items)|
      ensures Advanced(offset - old(offset))
    {
      var bytes := ReadBuffer(len);
      r := codec.TextOf(bytes);
    }

    /** Returns as many bytes as asked for, but from the start of the chunk and not from the cursor, whose
        offset in the chunk is ignored. None is the TypeError past the last chunk, or bytes that are
        missing, when what is returned is not determined by the bytes. */
    method ReadArrayBuffer(len: nat) returns (r: Option<Bytes>)
      requires Valid()
      modifies this, buffers
      ensures Counted() && Bytes() == old(Bytes()) && Grew() && length == old(length)
      ensures r.None? <==> old(curBufferIndex) == |old(buffers.items)| || old(offset) + len > length
      ensures 0 <= old(curBufferOffset) <= old(offset)
      ensures r.Some? ==> Valid() && offset == old(offset) + len <= length && Landed(len)
      ensures r.Some? ==> var start := old(offset) - old(curBufferOffset);
                          r.value == Bytes()[start..start + len]
    {
      CoordinatesInRange(buffers.items, offset, curBufferIndex, curBufferOffset);
      ghost var start := offset - curBufferOffset;
      var chunk := Consolidate(len);
      if chunk.None? || offset > length {
        return None;
      }
      SubSlice(Bytes(), start, start + |chunk.value|, 0, len);
      r := Some(chunk.value[..len]);
    }

    /** Like ReadBuffer, without merging: the chunks returned are cut from the list, which stays as it is. */
    method ReadBufferList(len: Option<int>) returns (r: seq<Bytes>)
      requires Valid()
      modifies this`offset, this`curBufferIndex, this`curBufferOffset
      ensures Valid() && 1 <= |r| && offset <= length
      ensures offset == AdjustEnd(old(offset), length, len) && 0 <= old(offset) <= offset
      ensures Concat(r) == Bytes()[old(offset)..offset]
      ensures 0 <= old(curBufferIndex) && 0 <= old(curBufferOffset)
      ensures r == if offset == old(offset) then [[]]
                   else Pieces(buffers.items, old(curBufferIndex), old(curBufferOffset), offset - old(offset))
      ensures if offset == old(offset) then curBufferIndex == old(curBufferIndex) && curBufferOffset == old(curBufferOffset)
              else BehindByte(buffers.items, curBufferIndex, curBufferOffset)
    {
      hide Concat, Pieces, Clip;
      CoordinatesInRange(buffers.items, offset, curBufferIndex, curBufferOffset);
      var end := AdjustEnd(offset, length, len);
      if offset == end {
        r := [[]];
        ConcatOne([]);
        return;
      }
      r := CutPieces(end);
      if curBufferOffset == |buffers.items[curBufferIndex]| {
        ChunkEnd(buffers.items, offset, curBufferIndex);
        curBufferOffset := 0;
        curBufferIndex := curBufferIndex + 1;
      }
    }

    /** The loop of ReadBufferList. */
    method CutPieces(end: int) returns (r: seq<Bytes>)
      requires Valid() && 0 <= offset < end <= length
      modifies this`offset, this`curBufferIndex, this`curBufferOffset
      ensures offset == end && 1 <= |r|
      ensures Cut(buffers.items, curBufferIndex, curBufferOffset, r, old(offset), end)
      ensures 0 <= old(curBufferIndex) && 0 <= old(curBufferOffset) && 0 < curBufferOffset
      ensures r == Pieces(buffers.items, old(curBufferIndex), old(curBufferOffset), end - old(offset))
    {
      hide Concat, Coordinates, Pieces, Clip;
      ghost var from := offset;
      var left := end - offset;
      offset := offset + left;
      var chunks := buffers.items;
      FirstPiece(chunks, from, curBufferIndex, curBufferOffset, left);
      ghost var pieces := Pieces(chunks, curBufferIndex, curBufferOffset, left);
      PiecesStep(chunks, curBufferIndex, curBufferOffset, left);
      var piece := Clip(chunks[curBufferIndex], curBufferOffset, left);
      r := [piece];
      left := left - |piece|;
      curBufferOffset := curBufferOffset + |piece|;
      while left > 0
        invariant 0 <= left && offset == end && 1 <= |r|
        invariant Cut(chunks, curBufferIndex, curBufferOffset, r, from, end - left)
        invariant if left > 0 then curBufferOffset == |chunks[curBufferIndex]| else curBufferOffset > 0
        invariant pieces == r + if left > 0 then Pieces(chunks, curBufferIndex + 1, 0, left) else []
        decreases |chunks| - curBufferIndex
      {
        NextPiece(chunks, curBufferIndex, r, from, end - left, left);
        MorePieces(chunks, curBufferIndex + 1, r, left);
        curBufferIndex := curBufferIndex + 1;
        piece := Clip(chunks[curBufferIndex], 0, left);
        r := r + [piece];
        left := left - |piece|;
        curBufferOffset := |piece|;
      }
    }
  }

  // ---- runs on which the reader departs from a plain cursor ---------------------------------------------

  /** popd does not come back: the last byte is saved, a read merges the chunks, and an empty buffer
      arrives. Nothing is thrown on the way. */
  method PopdMisses() returns (r: BufferListReader, saved: int, read: Option<Bytes>)
    ensures saved == 1 && read == Some([1, 2]) && !(r.Valid() && r.offset == saved)
  {
    hide Concat, Good, Merged, MergeEnd;
    TwoChunks([1], [2]);
    var chunks := new ChunkList([[1], [2]]);
    r := new BufferListReader(chunks, 1);
    assert r.Bytes() == [1, 2] && r.curBufferIndex == 1;
    saved := r.offset;
    var _ := r.Pushd();
    var _ := r.Seek(0);
    assert r.curBufferIndex == 0 && r.curBufferOffset == 0;
    read := r.ReadNumber(2);
    assert r.Bytes()[0..2] == [1, 2];
    r.AppendBuffer([]);
    GoodSurvives(r.contexts[0], 0, [[1], [2]], r.timestamp, r.buffers.items);
    var _ := r.Popd();
  }

  /** seek throws: the only byte is read, which leaves the cursor past the last chunk. */
  method SeekThrows() returns (read: Option<Byte>, sought: SeekResult)
    ensures read == Some(1) && sought == Crashed
  {
    ConcatOne([1]);
    var chunks := new ChunkList([[1]]);
    var r := new BufferListReader(chunks, 0);
    read := r.ReadByte();
    sought := r.Seek(0);
  }
}

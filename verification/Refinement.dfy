/** Both readers as one abstract machine: a cursor over a flat byte string with a stack of saved offsets. */
module Refinement {
  import opened ByteStrings
  import opened Codecs
  import opened ListReading
  import opened FlatReading
  import opened Reading

  datatype Cursor = Cursor(data: Bytes, offset: nat, saved: seq<int>)

  datatype Op =
    | Append(buffer: Bytes)
    | SeekTo(target: int)
    | SkipBy(step: int)
    | GetByte
    | GetUInt16
    | GetUInt32
    | GetDouble
    | GetText(textLen: Option<int>)
    | GetBuffer(len: nat)
    | GetBufferList(listLen: nat)
    | Push
    | Pop

  /** What an operation answers; after a seek or a skip, the offset. */
  datatype Out = Place(offset: int) | Depth(depth: nat) | Number(n: nat) | Raw(bytes: Bytes) | Text(text: Text) | Done

  /** The bytes an operation cannot do without. */
  function Needed(op: Op): nat {
    match op
    case GetByte => 1
    case GetUInt16 => 2
    case GetUInt32 => 4
    case GetDouble => 8
    case _ => 0
  }

  /** When an operation has an answer: the bytes it needs are there, and a pop has something to pop. */
  ghost predicate Enabled(c: Cursor, op: Op) {
    c.offset + Needed(op) <= |c.data| && (op.Pop? ==> c.saved != [])
  }

  ghost predicate WellFormed(c: Cursor) {
    c.offset <= |c.data| && forall i :: 0 <= i < |c.saved| ==> 0 <= c.saved[i] <= |c.data|
  }

  ghost function Take(c: Cursor, n: nat): Bytes
    requires c.offset + n <= |c.data|
  {
    c.data[c.offset..c.offset + n]
  }

  /** An offset out of range is refused, and the cursor stays. */
  ghost function Sought(c: Cursor, target: int): (offset: int) {
    if 0 <= target < |c.data| then target else c.offset
  }

  ghost function Step(codec: Codec, c: Cursor, op: Op): (r: (Cursor, Out))
    requires WellFormed(c) && Enabled(c, op)
    ensures WellFormed(r.0)
  {
    match op
    case Append(buffer) => (c.(data := c.data + buffer), Done)
    case SeekTo(target) => (c.(offset := Sought(c, target)), Place(Sought(c, target)))
    case SkipBy(step) =>
      var target := c.offset + (if step == 0 then 1 else step);
      (c.(offset := Sought(c, target)), Place(Sought(c, target)))
    case GetByte => (c.(offset := c.offset + 1), Number(c.data[c.offset] as nat))
    case GetUInt16 => (c.(offset := c.offset + 2), Number(UInt16At(c.data, c.offset)))
    case GetUInt32 => (c.(offset := c.offset + 4), Number(UInt32At(c.data, c.offset)))
    case GetDouble => (c.(offset := c.offset + 8), Raw(Take(c, 8)))
    case GetText(len) =>
      var end := AdjustEnd(c.offset, |c.data|, len);
      (c.(offset := end), Text(codec.TextOf(c.data[c.offset..end])))
    case GetBuffer(len) =>
      var end := AdjustEnd(c.offset, |c.data|, Some(len));
      (c.(offset := end), Raw(c.data[c.offset..end]))
    case GetBufferList(len) =>
      var end := AdjustEnd(c.offset, |c.data|, Some(len));
      (c.(offset := end), Raw(c.data[c.offset..end]))
    case Push => (c.(saved := c.saved + [c.offset]), Depth(|c.saved| + 1))
    case Pop =>
      var top := |c.saved| - 1;
      (c.(offset := c.saved[top], saved := c.saved[..top]), Depth(top))
  }

  // ---- the readers as this machine ---------------------------------------------------------------------

  /** The abstract cursor a reader stands for. Every context open on a list reader is still good, however
      stale its chunk index. */
  ghost predicate Stands(r: Reader, c: Cursor)
    reads r.Repr()
  {
    && r.Valid() && r.Data() == c.data && r.Offset() == c.offset
    && match r
       case Flat(f) => f.contexts == c.saved
       case List(l) =>
         && AllGood(l.contexts, l.timestamp, l.buffers.items)
         && |l.contexts| == |c.saved|
         && (forall i :: 0 <= i < |c.saved| ==> l.contexts[i].offset == c.saved[i])
  }

  ghost predicate AllGood(contexts: seq<Context>, stamp: nat, chunks: seq<Bytes>) {
    forall i :: 0 <= i < |contexts| ==> Good(contexts[i], stamp, chunks)
  }

  /** Enabled, as a reader can tell. */
  predicate Ready(r: Reader, op: Op)
    reads r.Repr()
  {
    !r.CheckEOF(Needed(op))
    && (op.Pop? ==> match r case Flat(f) => f.contexts != [] case List(l) => l.contexts != [])
  }

  /** Where the list reader departs from the machine: it throws when it is sent from past its last chunk to
      another offset in range, and popd misses a context that cannot be restored. */
  predicate Departs(r: Reader, op: Op)
    reads r.Repr()
  {
    match r
    case Flat(_) => false
    case List(l) =>
      match op
      case SeekTo(target) => Stuck(l, target)
      case SkipBy(step) => Stuck(l, l.offset + Stride(step))
      case Pop => l.contexts != [] && !Restorable(l.contexts[|l.contexts| - 1], l.timestamp, l.buffers.items)
      case _ => false
  }

  predicate Stuck(l: BufferListReader, target: int)
    reads l, l.buffers
  {
    target != l.offset && 0 <= target < l.length && l.curBufferIndex == |l.buffers.items|
  }

  lemma ReadyIsEnabled(r: Reader, c: Cursor, op: Op)
    requires Stands(r, c)
    ensures Ready(r, op) <==> Enabled(c, op)
  {
  }

  /** Departures happen at the end of the data only: the cursor is there, or the offset saved is there or
      at the last byte. */
  lemma DepartsAtEnd(r: Reader, c: Cursor, op: Op)
    requires Stands(r, c) && Departs(r, op)
    ensures if op.Pop? then c.saved != [] && c.saved[|c.saved| - 1] >= |c.data| - 1 else c.offset == |c.data|
  {
    var l := r.list;
    CoordinatesInRange(l.buffers.items, l.offset, l.curBufferIndex, l.curBufferOffset);
  }

  /** What an operation does to the stack of contexts. */
  ghost predicate Stacked(op: Op, was: seq<Context>, now: seq<Context>) {
    if op.Push? then |now| == |was| + 1 && was <= now
    else if op.Pop? then |was| == |now| + 1 && now <= was
    else now == was
  }

  lemma AllGoodSurvives(contexts: seq<Context>, stamp: nat, chunks: seq<Bytes>, stamp': nat, chunks': seq<Bytes>)
    requires AllGood(contexts, stamp, chunks) && Evolved(stamp, chunks, stamp', chunks')
    ensures AllGood(contexts, stamp', chunks')
  {
    forall i | 0 <= i < |contexts| ensures Good(contexts[i], stamp', chunks') {
      GoodSurvives(contexts[i], stamp, chunks, stamp', chunks');
    }
  }

  /** The reads. */
  method PerformRead(codec: Codec, r: Reader, op: Op, ghost c: Cursor) returns (out: Out)
    requires Stands(r, c) && WellFormed(c) && Enabled(c, op)
    requires !op.Append? && !op.Push? && !op.Pop? && !op.SeekTo? && !op.SkipBy?
    modifies r.Repr()
    ensures r.Repr() == old(r.Repr())
    ensures r.List? ==> r.list.contexts == old(r.list.contexts)
    ensures Stands(r, Step(codec, c, op).0) && out == Step(codec, c, op).1
  {
    hide Coordinates, Good, Concat, AllGood;
    ghost var stamp, chunks := r.Stamp(), r.Chunks();
    match op {
      case GetByte =>
        var b := r.ReadByte();
        out := Number(b.value as nat);
      case GetUInt16 =>
        var n := r.ReadUInt16();
        out := Number(n.value);
      case GetUInt32 =>
        var n := r.ReadUInt32();
        out := Number(n.value);
      case GetDouble =>
        var raw := r.ReadNumber(8);
        out := Raw(raw.value);
      case GetText(len) =>
        var text := r.ReadString(codec, len);
        out := Text(text);
      case GetBuffer(len) =>
        var bytes := r.ReadBuffer(len);
        out := Raw(bytes);
      case GetBufferList(len) =>
        var chunks := r.ReadBufferList(len);
        out := Raw(Concat(chunks));
    }
    if r.List? {
      AllGoodSurvives(r.list.contexts, stamp, chunks, r.Stamp(), r.Chunks());
    }
  }

  /** Appending, moving, saving and restoring on the list reader. */
  method PerformList(codec: Codec, l: BufferListReader, op: Op, ghost c: Cursor) returns (out: Out)
    requires Stands(List(l), c) && WellFormed(c) && Enabled(c, op)
    requires op.Append? || op.Push? || op.Pop? || op.SeekTo? || op.SkipBy?
    modifies l, l.buffers
    ensures l.buffers == old(l.buffers) && Stacked(op, old(l.contexts), l.contexts)
    ensures Stands(List(l), Step(codec, c, op).0) <==> !old(Departs(List(l), op))
    ensures !old(Departs(List(l), op)) ==> out == Step(codec, c, op).1
  {
    hide Good, Concat, AllGood, Coordinates, Restorable;
    ghost var stamp, chunks, contexts := l.timestamp, l.buffers.items, l.contexts;
    CoordinatesInRange(chunks, l.offset, l.curBufferIndex, l.curBufferOffset);
    match op {
      case Append(buffer) =>
        l.AppendBuffer(buffer);
        AllGoodSurvives(contexts, stamp, chunks, l.timestamp, l.buffers.items);
        out := Done;
      case SeekTo(target) =>
        IsAligned(chunks, l.offset, l.curBufferIndex, l.curBufferOffset);
        var _ := l.Seek(target);
        out := Place(l.offset);
      case SkipBy(step) =>
        var _ := l.Skip(step);
        out := Place(l.offset);
      case Push =>
        var depth := PushGood(l);
        out := Depth(depth);
      case Pop =>
        var depth := PopGood(l);
        out := Depth(depth);
    }
  }

  lemma IsAligned(chunks: seq<Bytes>, offset: int, idx: int, off: int)
    requires Coordinates(chunks, offset, idx, off)
    ensures Aligned(chunks, offset, idx, off)
  {
  }

  /** The context a pushd saves. */
  function Mark(l: BufferListReader): Context
    reads l
  {
    Context(l.timestamp, l.offset, l.curBufferOffset, l.curBufferIndex)
  }

  method PushGood(l: BufferListReader) returns (depth: nat)
    requires l.Valid() && AllGood(l.contexts, l.timestamp, l.buffers.items)
    modifies l`contexts
    ensures AllGood(l.contexts, l.timestamp, l.buffers.items)
    ensures l.contexts == old(l.contexts) + [Mark(l)] && depth == |l.contexts|
  {
    hide Good, Coordinates, Concat;
    depth := l.Pushd();
  }

  method PopGood(l: BufferListReader) returns (depth: nat)
    requires l.Valid() && AllGood(l.contexts, l.timestamp, l.buffers.items) && l.contexts != []
    modifies l`contexts, l`offset, l`curBufferIndex, l`curBufferOffset
    ensures AllGood(l.contexts, l.timestamp, l.buffers.items)
    ensures depth == |l.contexts| && depth + 1 == |old(l.contexts)| && l.contexts == old(l.contexts)[..depth]
    ensures var top := old(l.contexts)[depth];
            Restorable(top, l.timestamp, l.buffers.items) <==> l.Valid() && l.offset == top.offset
  {
    hide Good, Coordinates, Concat, Restorable;
    depth := l.Popd();
  }

  /** The same on the flat reader, which never departs. */
  method PerformFlat(codec: Codec, f: BufferReader, op: Op, ghost c: Cursor) returns (out: Out)
    requires Stands(Flat(f), c) && WellFormed(c) && Enabled(c, op)
    requires op.Push? || op.Pop? || op.SeekTo? || op.SkipBy?
    modifies f
    ensures Stands(Flat(f), Step(codec, c, op).0) && out == Step(codec, c, op).1
  {
    match op {
      case SeekTo(target) =>
        var _ := f.Seek(target);
        out := Place(f.offset);
      case SkipBy(step) =>
        var _ := f.Seek(f.offset + Stride(step));
        out := Place(f.offset);
      case Push =>
        var depth := f.Pushd();
        out := Depth(depth);
      case Pop =>
        var depth := f.Popd();
        out := Depth(depth);
    }
  }

  /** One operation that has an answer: the reader goes where the machine goes if and only if it does not
      depart, and then gives the machine's answer. */
  method Perform(codec: Codec, r: Reader, op: Op, ghost c: Cursor) returns (out: Out)
    requires Stands(r, c) && WellFormed(c) && Enabled(c, op) && (r.Flat? ==> !op.Append?)
    modifies r.Repr()
    ensures r.Repr() == old(r.Repr())
    ensures r.List? ==> Stacked(op, old(r.list.contexts), r.list.contexts)
    ensures Stands(r, Step(codec, c, op).0) <==> !old(Departs(r, op))
    ensures !old(Departs(r, op)) ==> out == Step(codec, c, op).1
  {
    hide Step, Enabled, Stands, Coordinates;
    if op.Append? || op.Push? || op.Pop? || op.SeekTo? || op.SkipBy? {
      match r {
        case List(l) => out := PerformList(codec, l, op, c);
        case Flat(f) => out := PerformFlat(codec, f, op, c);
      }
    } else {
      out := PerformRead(codec, r, op, c);
    }
  }

  // ---- runs ------------------------------------------------------------------------------------------

  /** The answers of a run, up to the first operation that has none. */
  ghost function Answers(codec: Codec, c: Cursor, ops: seq<Op>): (outs: seq<Out>)
    requires WellFormed(c)
    ensures |outs| <= |ops|
    decreases |ops|
  {
    if ops == [] || !Enabled(c, ops[0]) then []
    else
      var (next, out) := Step(codec, c, ops[0]);
      [out] + Answers(codec, next, ops[1..])
  }

  ghost function Final(codec: Codec, c: Cursor, ops: seq<Op>): (last: Cursor)
    requires WellFormed(c)
    ensures WellFormed(last)
    decreases |ops|
  {
    if ops == [] || !Enabled(c, ops[0]) then c else Final(codec, Step(codec, c, ops[0]).0, ops[1..])
  }

  /** The lowest level the stack of saved offsets reaches from the given depth. */
  function Floor(ops: seq<Op>, depth: int): (low: int)
    ensures low <= depth
    decreases |ops|
  {
    if ops == [] then depth
    else
      var low := Floor(ops[1..], Level(ops[0], depth));
      if low < depth then low else depth
  }

  function Level(op: Op, depth: int): int {
    if op.Push? then depth + 1 else if op.Pop? then depth - 1 else depth
  }

  predicate CanAppend(r: Reader, ops: seq<Op>) {
    r.List? || forall i :: 0 <= i < |ops| ==> !ops[i].Append?
  }

  /** Refinement, over every run from every state: whatever the chunks and however reads merge them, a reader
      answers what the cursor over the flat byte string answers and stands where it stands, until an
      operation has no answer or the list reader departs. Levels of the stack that were not popped still
      hold the same contexts. */
  method Run(codec: Codec, r: Reader, ops: seq<Op>, ghost c: Cursor) returns (outs: seq<Out>, ghost last: Cursor)
    requires Stands(r, c) && WellFormed(c) && CanAppend(r, ops)
    modifies r.Repr()
    ensures r.Repr() == old(r.Repr()) && |outs| <= |ops|
    ensures outs == Answers(codec, c, ops[..|outs|]) && last == Final(codec, c, ops[..|outs|])
    ensures Stands(r, last)
    ensures |outs| < |ops| ==> !Enabled(last, ops[|outs|]) || Departs(r, ops[|outs|])
    ensures r.List? ==> var low := Floor(ops[..|outs|], |old(r.list.contexts)|);
                        0 <= low <= |r.list.contexts| && r.list.contexts[..low] == old(r.list.contexts)[..low]
    decreases |ops|
  {
    hide Step, Enabled, Stands, Coordinates, Departs, Ready;
    if ops == [] {
      outs, last := [], c;
      return;
    }
    ReadyIsEnabled(r, c, ops[0]);
    if !Ready(r, ops[0]) || Departs(r, ops[0]) {
      outs, last := [], c;
      return;
    }
    var out := Perform(codec, r, ops[0], c);
    var more;
    more, last := Run(codec, r, ops[1..], Step(codec, c, ops[0]).0);
    outs := [out] + more;
    assert ops[..|outs|][1..] == ops[1..][..|more|];
  }

  /** A run that has answered k operations goes on from where they lead. */
  lemma {:induction false} AnswersGoOn(codec: Codec, c: Cursor, ops: seq<Op>, k: nat)
    requires WellFormed(c) && k <= |ops| && |Answers(codec, c, ops[..k])| == k
    ensures Answers(codec, c, ops) == Answers(codec, c, ops[..k]) + Answers(codec, Final(codec, c, ops[..k]), ops[k..])
    ensures Final(codec, c, ops) == Final(codec, Final(codec, c, ops[..k]), ops[k..])
    decreases k
  {
    hide Step, Enabled, WellFormed;
    if k == 0 {
      assert ops[0..] == ops;
    } else {
      assert ops[..k][1..] == ops[1..][..k - 1] && ops[1..][k - 1..] == ops[k..];
      AnswersGoOn(codec, Step(codec, c, ops[0]).0, ops[1..], k - 1);
    }
  }

  lemma NoMoreAnswers(codec: Codec, c: Cursor, ops: seq<Op>, k: nat)
    requires WellFormed(c) && k <= |ops| && |Answers(codec, c, ops[..k])| == k
    requires k < |ops| ==> !Enabled(Final(codec, c, ops[..k]), ops[k])
    ensures Answers(codec, c, ops) == Answers(codec, c, ops[..k])
  {
    hide Step, Enabled, WellFormed;
    AnswersGoOn(codec, c, ops, k);
  }

  /** The two readers agree: over any chunks and any run without appends, the list reader answers what the
      flat reader over the concatenated chunks answers, up to its first departure, if it has one. */
  method RunOnBoth(codec: Codec, items: seq<Bytes>, ops: seq<Op>)
    returns (fromList: seq<Out>, fromFlat: seq<Out>, list: Reader)
    requires forall i :: 0 <= i < |ops| ==> !ops[i].Append?
    ensures fromFlat == Answers(codec, Cursor(Concat(items), 0, []), ops)
    ensures fromList <= fromFlat
    ensures list.List? && (fromList != fromFlat ==> Departs(list, ops[|fromList|]))
  {
    hide Answers, Final, Stands, Step, Enabled;
    ghost var c := Cursor(Concat(items), 0, []);
    list := OpenList(items);
    ghost var last;
    fromList, last := Run(codec, list, ops, c);
    AnswersGoOn(codec, c, ops, |fromList|);
    if |fromList| < |ops| && !Enabled(last, ops[|fromList|]) {
      NoMoreAnswers(codec, c, ops, |fromList|);
    }
    assert |fromList| == |ops| ==> ops[..|fromList|] == ops;
    var flat := OpenFlat(Concat(items));
    fromFlat, last := Run(codec, flat, ops, c);
    NoMoreAnswers(codec, c, ops, |fromFlat|);
  }

  method OpenList(items: seq<Bytes>) returns (r: Reader)
    ensures r.List? && fresh(r.Repr()) && Stands(r, Cursor(Concat(items), 0, []))
  {
    var chunks := new ChunkList(items);
    var list := new BufferListReader(chunks, 0);
    r := List(list);
  }

  method OpenFlat(buffer: Bytes) returns (r: Reader)
    ensures r.Flat? && fresh(r.Repr()) && Stands(r, Cursor(buffer, 0, []))
  {
    var flat := new BufferReader(buffer, 0);
    r := Flat(flat);
  }

  // ---- restoring a saved offset ------------------------------------------------------------------------

  /** The level a run leads to. */
  function Reached(ops: seq<Op>, depth: int): int
    decreases |ops|
  {
    if ops == [] then depth else Reached(ops[1..], Level(ops[0], depth))
  }

  /** The run pops only what it pushed, all of it. */
  predicate Nested(ops: seq<Op>) {
    Floor(ops, 0) == 0 && Reached(ops, 0) == 0
  }

  lemma {:induction false} LevelsShift(ops: seq<Op>, depth: int, up: int)
    ensures Floor(ops, depth + up) == Floor(ops, depth) + up
    ensures Reached(ops, depth + up) == Reached(ops, depth) + up
    decreases |ops|
  {
    if ops != [] {
      LevelsShift(ops[1..], Level(ops[0], depth), up);
    }
  }

  lemma StepKeepsSaved(codec: Codec, c: Cursor, op: Op)
    requires WellFormed(c) && Enabled(c, op)
    ensures var next := Step(codec, c, op).0;
            if op.Push? then next.saved == c.saved + [c.offset]
            else if op.Pop? then c.saved != [] && next.saved == c.saved[..|c.saved| - 1]
            else next.saved == c.saved
  {
  }

  /** What a run that is answered to its end leaves on the stack. */
  lemma {:induction false} SavedBelowFloor(codec: Codec, c: Cursor, ops: seq<Op>)
    requires WellFormed(c) && |Answers(codec, c, ops)| == |ops|
    ensures var last, low := Final(codec, c, ops), Floor(ops, |c.saved|);
            && |last.saved| == Reached(ops, |c.saved|)
            && 0 <= low <= |last.saved| && last.saved[..low] == c.saved[..low]
    decreases |ops|
  {
    hide Step, Enabled, WellFormed;
    if ops != [] {
      StepKeepsSaved(codec, c, ops[0]);
      SavedBelowFloor(codec, Step(codec, c, ops[0]).0, ops[1..]);
    }
  }

  lemma NestedKeepsSaved(codec: Codec, c: Cursor, ops: seq<Op>)
    requires WellFormed(c) && Nested(ops) && |Answers(codec, c, ops)| == |ops|
    ensures Final(codec, c, ops).saved == c.saved && Floor(ops, |c.saved|) == |c.saved|
  {
    hide Step, Enabled, WellFormed, Answers, Final, Floor, Reached;
    LevelsShift(ops, 0, |c.saved|);
    SavedBelowFloor(codec, c, ops);
  }

  /** popd undoes everything since its pushd: after any reads, seeks, appends and nested saves and restores,
      the list reader is back at the offset saved if and only if the context saved there can be restored,
      and a flat reader always is; the other levels of the stack are as they were. */
  method PopUndoes(codec: Codec, r: Reader, between: seq<Op>, ghost c: Cursor)
    returns (outs: seq<Out>, ghost last: Cursor)
    requires Stands(r, c) && WellFormed(c) && Nested(between) && CanAppend(r, between)
    modifies r.Repr()
    ensures |outs| <= |between|
    ensures |outs| < |between| ==>
              Stands(r, last) && (!Enabled(last, between[|outs|]) || Departs(r, between[|outs|]))
    ensures |outs| == |between| && r.Flat? ==>
              r.Valid() && r.Offset() == old(r.Offset()) && r.flat.contexts == old(r.flat.contexts)
    ensures |outs| == |between| && r.List? ==>
              && r.list.contexts == old(r.list.contexts)
              && (Restorable(old(Mark(r.list)), r.list.timestamp, r.list.buffers.items)
                  <==> r.list.Valid() && r.list.offset == old(r.list.offset))
  {
    hide Step, Answers, Final, Floor, Reached, Nested, Good, Coordinates, Concat, Restorable, Departs;
    ghost var pushed := c.(saved := c.saved + [c.offset]);
    match r {
      case Flat(f) => var _ := f.Pushd();
      case List(l) => var _ := PushGood(l);
    }
    outs, last := Run(codec, r, between, pushed);
    if |outs| == |between| {
      assert between[..|outs|] == between;
      NestedKeepsSaved(codec, pushed, between);
      match r {
        case Flat(f) => var _ := f.Popd();
        case List(l) => var _ := PopGood(l);
      }
    }
  }
}

/** Bytes, chunk lists and little-endian numbers: what Node's Buffer gives the repository. */
module ByteStrings {

  newtype Byte = b: int | 0 <= b < 256
  type Bytes = seq<Byte>

  datatype Option<+T> = None | Some(value: T)

  /** The byte string a list of chunks stands for (Buffer.concat). */
  function Concat(chunks: seq<Bytes>): Bytes {
    if chunks == [] then [] else chunks[0] + Concat(chunks[1..])
  }

  /** Position, in the concatenation, of the first byte of chunk i. */
  ghost function Start(chunks: seq<Bytes>, i: nat): nat
    requires i <= |chunks|
  {
    |Concat(chunks[..i])|
  }

  lemma {:induction false} ConcatAppend(a: seq<Bytes>, b: seq<Bytes>)
    ensures Concat(a + b) == Concat(a) + Concat(b)
  {
    if a == [] {
      assert a + b == b;
    } else {
      assert (a + b)[0] == a[0] && (a + b)[1..] == a[1..] + b;
      ConcatAppend(a[1..], b);
    }
  }

  lemma ConcatOne(chunk: Bytes)
    ensures Concat([chunk]) == chunk
  {
    assert [chunk][1..] == [];
  }

  lemma ConcatCons(chunk: Bytes, chunks: seq<Bytes>)
    ensures Concat([chunk] + chunks) == chunk + Concat(chunks)
  {
    assert ([chunk] + chunks)[1..] == chunks;
  }

  lemma ConcatPush(chunks: seq<Bytes>, chunk: Bytes)
    ensures Concat(chunks + [chunk]) == Concat(chunks) + chunk
  {
    ConcatAppend(chunks, [chunk]);
    ConcatOne(chunk);
  }

  lemma ConcatSplit(chunks: seq<Bytes>, i: nat)
    requires i <= |chunks|
    ensures Concat(chunks) == Concat(chunks[..i]) + Concat(chunks[i..])
    ensures Start(chunks, i) <= |Concat(chunks)|
  {
    assert chunks == chunks[..i] + chunks[i..];
    ConcatAppend(chunks[..i], chunks[i..]);
  }

  lemma StartBounds(chunks: seq<Bytes>)
    ensures Start(chunks, 0) == 0
    ensures Start(chunks, |chunks|) == |Concat(chunks)|
  {
    assert chunks[..|chunks|] == chunks;
  }

  /** Where chunk i lies in the concatenation. */
  lemma ChunkPlace(chunks: seq<Bytes>, i: nat)
    requires i < |chunks|
    ensures Start(chunks, i + 1) == Start(chunks, i) + |chunks[i]| <= |Concat(chunks)|
    ensures Concat(chunks)[Start(chunks, i)..Start(chunks, i + 1)] == chunks[i]
  {
    assert chunks[..i + 1] == chunks[..i] + [chunks[i]];
    ConcatPush(chunks[..i], chunks[i]);
    ConcatSplit(chunks, i + 1);
  }

  lemma TwoChunks(first: Bytes, second: Bytes)
    ensures Concat([first, second]) == first + second
    ensures Start([first, second], 0) == 0 && Start([first, second], 1) == |first|
  {
    ConcatCons(first, [second]);
    ConcatOne(second);
    ConcatOne(first);
    assert [first, second] == [first] + [second] && [first, second][..1] == [first];
  }

  /** Replacing chunks i..k by their concatenation leaves the byte string and the earlier starts alone. */
  lemma MergeChunks(chunks: seq<Bytes>, i: nat, k: nat)
    requires i <= k <= |chunks|
    ensures var merged := chunks[..i] + [Concat(chunks[i..k])] + chunks[k..];
            Concat(merged) == Concat(chunks) && Start(merged, i) == Start(chunks, i)
  {
    hide Concat, Start;
    var before, middle, after := chunks[..i], Concat(chunks[i..k]), chunks[k..];
    ConcatAppend(before + [middle], after);
    ConcatPush(before, middle);
    ConcatTo(chunks, i, k);
    ConcatSplit(chunks, k);
    SameStart(chunks, before + [middle] + after, i);
  }

  lemma ConcatTo(chunks: seq<Bytes>, i: nat, k: nat)
    requires i <= k <= |chunks|
    ensures Concat(chunks[..k]) == Concat(chunks[..i]) + Concat(chunks[i..k])
  {
    hide Concat;
    assert chunks[..k] == chunks[..i] + chunks[i..k];
    ConcatAppend(chunks[..i], chunks[i..k]);
  }

  lemma SameStart(a: seq<Bytes>, b: seq<Bytes>, i: nat)
    requires i <= |a| && i <= |b| && a[..i] == b[..i]
    ensures Start(a, i) == Start(b, i)
  {
  }

  /** A sub-range of chunks seen from a fixed start. */
  lemma RangeLength(chunks: seq<Bytes>, i: nat, k: nat)
    requires i <= k <= |chunks|
    ensures Start(chunks, i) + |Concat(chunks[i..k])| == Start(chunks, k) <= |Concat(chunks)|
    ensures Concat(chunks[i..k]) == Concat(chunks)[Start(chunks, i)..Start(chunks, k)]
  {
    hide Concat;
    ConcatTo(chunks, i, k);
    ConcatSplit(chunks, k);
    ConcatSplit(chunks, i);
  }

  // ---- little-endian numbers -------------------------------------------------------------

  const UInt32Limit: nat := 0x1_0000_0000

  function UInt16(n: nat): (s: Bytes)
    ensures |s| == 2
  {
    [(n % 256) as Byte, (n / 256 % 256) as Byte]
  }

  function UInt32(n: nat): (s: Bytes)
    ensures |s| == 4
  {
    [(n % 256) as Byte, (n / 256 % 256) as Byte, (n / 65536 % 256) as Byte, (n / 16777216 % 256) as Byte]
  }

  function UInt16At(s: Bytes, at: nat): (n: nat)
    requires at + 2 <= |s|
    ensures n < 0x10000
  {
    s[at] as nat + 256 * s[at + 1] as nat
  }

  function UInt32At(s: Bytes, at: nat): (n: nat)
    requires at + 4 <= |s|
    ensures n < UInt32Limit
  {
    s[at] as nat + 256 * s[at + 1] as nat + 65536 * s[at + 2] as nat + 16777216 * s[at + 3] as nat
  }

  lemma UInt16RoundTrip(n: nat)
    requires n < 0x10000
    ensures UInt16At(UInt16(n), 0) == n
  {
    assert n / 256 % 256 == n / 256;
  }

  lemma UInt32RoundTrip(n: nat)
    requires n < UInt32Limit
    ensures UInt32At(UInt32(n), 0) == n
  {
    var b := n / 256;
    var c := n / 65536;
    var d := n / 16777216;
    assert c == b / 256 && d == c / 256 && d % 256 == d;
    assert n == 256 * b + n % 256 && b == 256 * c + b % 256 && c == 256 * d + c % 256;
  }

  lemma SubSlice(s: Bytes, a: nat, b: nat, i: nat, j: nat)
    requires a <= b <= |s| && i <= j <= b - a
    ensures s[a..b][i..j] == s[a + i..a + j]
  {
    assert forall k :: 0 <= k < j - i ==> s[a..b][i..j][k] == s[a + i..a + j][k];
  }

  // ---- occurrence of one byte string inside another -----------------------------------------

  /** e occurs in s at position at. */
  predicate At(s: Bytes, at: nat, e: Bytes) {
    at + |e| <= |s| && s[at..at + |e|] == e
  }

  lemma AtWhole(e: Bytes)
    ensures At(e, 0, e)
  {
    assert e[0..|e|] == e;
  }

  lemma AtIndex(s: Bytes, at: nat, e: Bytes, i: nat)
    requires At(s, at, e) && i < |e|
    ensures s[at + i] == e[i]
  {
    assert s[at..at + |e|][i] == e[i];
  }

  lemma AtSplit(s: Bytes, at: nat, a: Bytes, b: Bytes)
    ensures At(s, at, a + b) <==> At(s, at, a) && At(s, at + |a|, b)
  {
    if At(s, at, a + b) {
      assert s[at..at + |a|] == s[at..at + |a + b|][..|a|];
      assert s[at + |a|..at + |a| + |b|] == s[at..at + |a + b|][|a|..];
    }
  }

  lemma AtUInt16(s: Bytes, at: nat, n: nat)
    requires n < 0x10000 && At(s, at, UInt16(n))
    ensures UInt16At(s, at) == n
  {
    UInt16RoundTrip(n);
    var e := s[at..at + 2];
    assert s[at] == e[0] && s[at + 1] == e[1];
  }

  lemma AtUInt32(s: Bytes, at: nat, n: nat)
    requires n < UInt32Limit && At(s, at, UInt32(n))
    ensures UInt32At(s, at) == n
  {
    UInt32RoundTrip(n);
    var e := s[at..at + 4];
    assert s[at] == e[0] && s[at + 1] == e[1] && s[at + 2] == e[2] && s[at + 3] == e[3];
  }
}

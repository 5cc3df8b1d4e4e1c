/** WriteUtf8 and ReadUtf8 of test/perf/encode-decode.test.ts: a self-contained text codec. Masks and
    shifts of non-negative numbers are written as remainders and quotients. */
module Utf8 {
  import opened ByteStrings
  import opened Codecs

  // ---- what is written --------------------------------------------------------------------------

  predicate IsHigh(u: CodeUnit) {
    u as int / 1024 == 54  // (u & 0xfc00) === 0xd800
  }

  predicate IsLow(u: CodeUnit) {
    u as int / 1024 == 55  // (u & 0xfc00) === 0xdc00
  }

  predicate StartsWithPair(t: Text) {
    |t| >= 2 && IsHigh(t[0]) && IsLow(t[1])
  }

  function PairValue(high: CodeUnit, low: CodeUnit): (p: int)
    ensures 0x10000 <= p < 0x110000
  {
    0x10000 + high as int % 1024 * 1024 + low as int % 1024
  }

  function FourOf(p: int): Bytes
    requires 0x10000 <= p < 0x110000
  {
    [(240 + p / 262144) as Byte, (128 + p / 4096 % 64) as Byte, (128 + p / 64 % 64) as Byte, (128 + p % 64) as Byte]
  }

  /** The bytes of the first code unit, or of the first two when they are a surrogate pair. */
  function FirstBytes(t: Text): (bytes: Bytes)
    requires t != []
    ensures 1 <= |bytes| <= 3 * FirstUnits(t)
  {
    var c := t[0] as int;
    if c < 128 then
      [c as Byte]
    else if c < 2048 then
      [(192 + c / 64) as Byte, (128 + c % 64) as Byte]
    else if StartsWithPair(t) then
      FourOf(PairValue(t[0], t[1]))
    else
      [(224 + c / 4096) as Byte, (128 + c / 64 % 64) as Byte, (128 + c % 64) as Byte]
  }

  function FirstUnits(t: Text): (n: nat)
    requires t != []
    ensures 1 <= n <= |t|
  {
    if t[0] as int >= 2048 && StartsWithPair(t) then 2 else 1
  }

  function Encoded(t: Text): Bytes {
    if t == [] then [] else FirstBytes(t) + Encoded(t[FirstUnits(t)..])
  }

  // ---- what is read --------------------------------------------------------------------------------

  /** A read past the end of the array gives undefined, which masks to 0. */
  function Low6(s: Bytes, i: nat): nat {
    if i < |s| then s[i] as nat % 64 else 0
  }

  /** The code units one turn of the loop appends, and where it leaves the index. */
  datatype Turn = Turn(units: Text, next: nat)

  function TurnAt(s: Bytes, i: nat): (r: Turn)
    requires i < |s|
    ensures i < r.next
  {
    var t := s[i] as int;
    if t <= 0x7f then
      Turn([t as CodeUnit], i + 1)
    else if 0xc0 <= t < 0xe0 then
      Turn([(t % 32 * 64 + Low6(s, i + 1)) as CodeUnit], i + 2)
    else if 0xe0 <= t < 0xf0 then
      Turn([(t % 16 * 4096 + Low6(s, i + 1) * 64 + Low6(s, i + 2)) as CodeUnit], i + 3)
    else if t >= 0xf0 then
      var t2 := t % 8 * 262144 + Low6(s, i + 1) * 4096 + Low6(s, i + 2) * 64 + Low6(s, i + 3) - 0x10000;
      Turn([((0xd800 + t2 / 1024) % 0x10000) as CodeUnit, (0xdc00 + t2 % 1024) as CodeUnit], i + 4)
    else
      Turn([], i + 1)
  }

  function Decoded(s: Bytes, i: nat, end: nat): Text
    requires end <= |s|
    decreases end - i
  {
    if i >= end then [] else TurnAt(s, i).units + Decoded(s, TurnAt(s, i).next, end)
  }

  // ---- round trip --------------------------------------------------------------------------------------

  lemma TwoBytes(c: int)
    requires 128 <= c < 2048
    ensures 192 <= 192 + c / 64 < 224 && (192 + c / 64) % 32 * 64 + (128 + c % 64) % 64 == c
  {
  }

  lemma ThreeBytes(c: int)
    requires 2048 <= c < 0x10000
    ensures 224 <= 224 + c / 4096 < 240
    ensures (224 + c / 4096) % 16 * 4096 + (128 + c / 64 % 64) % 64 * 64 + (128 + c % 64) % 64 == c
  {
    assert c / 64 == c / 4096 * 64 + c / 64 % 64;
  }

  lemma SixBits(x: int)
    requires 0 <= x < 64
    ensures (128 + x) % 64 == x
  {
  }

  lemma FourBytes(p: int)
    requires 0x10000 <= p < 0x110000
    ensures 240 <= 240 + p / 262144 < 248
    ensures (240 + p / 262144) % 8 * 262144 + (128 + p / 4096 % 64) % 64 * 4096
            + (128 + p / 64 % 64) % 64 * 64 + (128 + p % 64) % 64 == p
  {
    var a, b, c := p / 64, p / 4096, p / 262144;
    assert b == a / 64 && c == b / 64;
    assert p == 64 * a + p % 64 && a == 64 * b + a % 64 && b == 64 * c + b % 64;
    SixBits(a % 64);
    SixBits(b % 64);
    SixBits(p % 64);
    assert (240 + c) % 8 == c;
  }

  /** The surrogate arithmetic of section 2 of RFC 2781, undone. */
  lemma PairBack(high: CodeUnit, low: CodeUnit)
    requires IsHigh(high) && IsLow(low)
    ensures 0x10000 <= PairValue(high, low) < 0x110000
    ensures 0xd800 + (PairValue(high, low) - 0x10000) / 1024 == high as int
    ensures 0xdc00 + (PairValue(high, low) - 0x10000) % 1024 == low as int
  {
  }

  lemma TurnOfFirst(t: Text, s: Bytes, i: nat)
    requires t != [] && At(s, i, FirstBytes(t))
    ensures i < |s| && TurnAt(s, i) == Turn(t[..FirstUnits(t)], i + |FirstBytes(t)|)
  {
    var e := FirstBytes(t);
    AtIndex(s, i, e, 0);
    if |e| == 1 {
      assert t[..1] == [t[0]];
    } else if |e| == 2 {
      TurnOfTwo(t[0], s, i);
      assert t[..1] == [t[0]];
    } else if |e| == 3 {
      TurnOfThree(t[0], s, i);
      assert t[..1] == [t[0]];
    } else {
      TurnOfPair(t[0], t[1], s, i);
      assert t[..2] == [t[0], t[1]];
    }
  }

  lemma TurnOfTwo(u: CodeUnit, s: Bytes, i: nat)
    requires 128 <= u as int < 2048
    requires At(s, i, [(192 + u as int / 64) as Byte, (128 + u as int % 64) as Byte])
    ensures TurnAt(s, i) == Turn([u], i + 2)
  {
    var e := [(192 + u as int / 64) as Byte, (128 + u as int % 64) as Byte];
    TwoBytes(u as int);
    AtIndex(s, i, e, 0);
    AtIndex(s, i, e, 1);
  }

  lemma TurnOfThree(u: CodeUnit, s: Bytes, i: nat)
    requires 2048 <= u as int
    requires At(s, i, [(224 + u as int / 4096) as Byte, (128 + u as int / 64 % 64) as Byte, (128 + u as int % 64) as Byte])
    ensures TurnAt(s, i) == Turn([u], i + 3)
  {
    var e := [(224 + u as int / 4096) as Byte, (128 + u as int / 64 % 64) as Byte, (128 + u as int % 64) as Byte];
    ThreeBytes(u as int);
    AtIndex(s, i, e, 0);
    AtIndex(s, i, e, 1);
    AtIndex(s, i, e, 2);
  }

  /** A four-byte sequence reads as the two surrogates of its value. */
  lemma TurnOfFour(p: int, s: Bytes, i: nat)
    requires 0x10000 <= p < 0x110000 && At(s, i, FourOf(p))
    ensures 0 <= 0xd800 + (p - 0x10000) / 1024 < 0xdc00 <= 0xdc00 + (p - 0x10000) % 1024 < 0x10000
    ensures TurnAt(s, i) == Turn([(0xd800 + (p - 0x10000) / 1024) as CodeUnit,
                                  (0xdc00 + (p - 0x10000) % 1024) as CodeUnit], i + 4)
  {
    hide At, FourOf, Low6, TurnAt;
    LeadBits(p, s, i);
    TurnOfLead(p, s, i);
    SurrogatesInRange(p);
  }

  lemma LeadBits(p: int, s: Bytes, i: nat)
    requires 0x10000 <= p < 0x110000 && At(s, i, FourOf(p))
    ensures i < |s| && s[i] as int >= 0xf0
    ensures s[i] as int % 8 * 262144 + Low6(s, i + 1) * 4096 + Low6(s, i + 2) * 64 + Low6(s, i + 3) == p
  {
    hide At, FourOf, Low6;
    FourBytes(p);
    FourAt(p, s, i);
  }

  /** The last branch of the loop, when the bits read are those of p. */
  lemma TurnOfLead(p: int, s: Bytes, i: nat)
    requires i < |s| && s[i] as int >= 0xf0 && 0x10000 <= p
    requires s[i] as int % 8 * 262144 + Low6(s, i + 1) * 4096 + Low6(s, i + 2) * 64 + Low6(s, i + 3) == p
    ensures TurnAt(s, i) == Turn([((0xd800 + (p - 0x10000) / 1024) % 0x10000) as CodeUnit,
                                  (0xdc00 + (p - 0x10000) % 1024) as CodeUnit], i + 4)
  {
    hide Low6;
  }

  lemma SurrogatesInRange(p: int)
    requires 0x10000 <= p < 0x110000
    ensures 0xd800 <= 0xd800 + (p - 0x10000) / 1024 < 0xdc00 <= 0xdc00 + (p - 0x10000) % 1024 < 0xe000
    ensures (0xd800 + (p - 0x10000) / 1024) % 0x10000 == 0xd800 + (p - 0x10000) / 1024
  {
  }

  lemma FourAt(p: int, s: Bytes, i: nat)
    requires 0x10000 <= p < 0x110000 && At(s, i, FourOf(p))
    ensures i + 4 <= |s| && s[i] as int == 240 + p / 262144 && Low6(s, i + 1) == (128 + p / 4096 % 64) % 64
    ensures Low6(s, i + 2) == (128 + p / 64 % 64) % 64 && Low6(s, i + 3) == (128 + p % 64) % 64
  {
    AtIndex(s, i, FourOf(p), 0);
    AtIndex(s, i, FourOf(p), 1);
    AtIndex(s, i, FourOf(p), 2);
    AtIndex(s, i, FourOf(p), 3);
  }

  lemma TurnOfPair(high: CodeUnit, low: CodeUnit, s: Bytes, i: nat)
    requires IsHigh(high) && IsLow(low) && At(s, i, FourOf(PairValue(high, low)))
    ensures TurnAt(s, i) == Turn([high, low], i + 4)
  {
    hide TurnAt, FourOf, PairValue;
    PairBack(high, low);
    TurnOfFour(PairValue(high, low), s, i);
  }

  /** ReadUtf8 undoes WriteUtf8 for every sequence of 16-bit code units, lone surrogates included. */
  lemma {:induction false} DecodedOfEncoded(t: Text, s: Bytes, i: nat)
    requires At(s, i, Encoded(t))
    ensures Decoded(s, i, i + |Encoded(t)|) == t
  {
    hide TurnAt, FirstBytes, FirstUnits;
    if t != [] {
      var first, rest := FirstBytes(t), t[FirstUnits(t)..];
      AtSplit(s, i, first, Encoded(rest));
      TurnOfFirst(t, s, i);
      DecodedOfEncoded(rest, s, i + |first|);
      assert t[..FirstUnits(t)] + rest == t;
    }
  }

  /** At most three bytes are written per code unit. */
  lemma {:induction false} EncodedLength(t: Text)
    ensures |Encoded(t)| <= 3 * |t|
  {
    if t != [] {
      EncodedLength(t[FirstUnits(t)..]);
    }
  }

  // ---- malformed text ------------------------------------------------------------------------------------

  /** A surrogate without its partner is written like any other code unit of its size. */
  lemma LoneSurrogate(t: Text)
    requires t != [] && 0xd800 <= t[0] as int < 0xe000
    requires !(|t| >= 2 && t[0] as int < 0xdc00 <= t[1] as int < 0xe000)
    ensures var c := t[0] as int;
            Encoded(t) == [(0xe0 + c / 4096) as Byte, (0x80 + c / 64 % 64) as Byte, (0x80 + c % 64) as Byte]
                          + Encoded(t[1..])
  {
    assert !StartsWithPair(t);
  }

  /** A continuation byte on its own is dropped. */
  lemma StrayByte(s: Bytes, i: nat, end: nat)
    requires i < end <= |s| && 0x80 <= s[i] as int < 0xc0
    ensures Decoded(s, i, end) == Decoded(s, i + 1, end)
  {
  }

  /** A sequence cut off behind its first byte reads as if zeros followed. */
  lemma CutShort(s: Bytes, i: nat)
    requires i + 1 == |s| && 0xc0 <= s[i] as int
    ensures var b := s[i] as int;
            Decoded(s, i, |s|)
            == if b < 0xe0 then [((b - 0xc0) * 64) as CodeUnit]
               else if b < 0xf0 then [((b - 0xe0) * 4096) as CodeUnit]
               else [(0xd7c0 + b % 8 * 256) as CodeUnit, 0xdc00]
  {
    hide TurnAt;
    LastTurn(s, i);
    assert Decoded(s, TurnAt(s, i).next, |s|) == [];
  }

  lemma LastTurn(s: Bytes, i: nat)
    requires i + 1 == |s| && 0xc0 <= s[i] as int
    ensures var b := s[i] as int;
            TurnAt(s, i).units
            == if b < 0xe0 then [((b - 0xc0) * 64) as CodeUnit]
               else if b < 0xf0 then [((b - 0xe0) * 4096) as CodeUnit]
               else [(0xd7c0 + b % 8 * 256) as CodeUnit, 0xdc00]
  {
    var b := s[i] as int;
    if b >= 0xf0 {
      HighBits(b % 8);
    } else {
      assert b < 0xe0 ==> b % 32 == b - 0xc0;
      assert b >= 0xe0 ==> b % 16 == b - 0xe0;
    }
  }

  lemma HighBits(k: int)
    requires 0 <= k < 8
    ensures (k * 262144 - 0x10000) / 1024 == k * 256 - 64 && (k * 262144 - 0x10000) % 1024 == 0
  {
  }

  // ---- the two loops -------------------------------------------------------------------------------------

  /** The bytes e stand at offset, up to next, and the rest of the buffer is as it was. */
  twostate predicate Stored(buffer: array<Byte>, offset: nat, e: Bytes, next: nat)
    reads buffer
  {
    && next == offset + |e| <= buffer.Length
    && buffer[..next] == old(buffer[..offset]) + e
    && buffer[next..] == old(buffer[next..])
  }

  /** One turn of the loop of WriteUtf8, for the text left. */
  method WriteFirst(t: Text, buffer: array<Byte>, offset: nat) returns (next: nat)
    requires t != [] && offset + |FirstBytes(t)| <= buffer.Length
    modifies buffer
    ensures Stored(buffer, offset, FirstBytes(t), next)
  {
    var c := t[0] as int;
    next := offset;
    if c < 128 {
      buffer[next] := c as Byte;
      next := next + 1;
    } else if c < 2048 {
      buffer[next] := (192 + c / 64) as Byte;
      next := next + 1;
      buffer[next] := (128 + c % 64) as Byte;
      next := next + 1;
    } else if |t| >= 2 && IsHigh(t[0]) && IsLow(t[1]) {
      next := WriteFour(PairValue(t[0], t[1]), buffer, offset);
    } else {
      buffer[next] := (224 + c / 4096) as Byte;
      next := next + 1;
      buffer[next] := (128 + c / 64 % 64) as Byte;
      next := next + 1;
      buffer[next] := (128 + c % 64) as Byte;
      next := next + 1;
    }
  }

  method WriteFour(p: int, buffer: array<Byte>, offset: nat) returns (next: nat)
    requires 0x10000 <= p < 0x110000 && offset + 4 <= buffer.Length
    modifies buffer
    ensures Stored(buffer, offset, FourOf(p), next)
  {
    next := offset;
    buffer[next] := (240 + p / 262144) as Byte;
    next := next + 1;
    buffer[next] := (128 + p / 4096 % 64) as Byte;
    next := next + 1;
    buffer[next] := (128 + p / 64 % 64) as Byte;
    next := next + 1;
    buffer[next] := (128 + p % 64) as Byte;
    next := next + 1;
  }

  /** Writes exactly the encoding, in place, and touches nothing else of the buffer. */
  method WriteUtf8(text: Text, buffer: array<Byte>, start: nat) returns (n: nat)
    requires start + |Encoded(text)| <= buffer.Length
    modifies buffer
    ensures n == |Encoded(text)| <= 3 * |text|
    ensures buffer[..start] == old(buffer[..start]) && buffer[start..start + n] == Encoded(text)
    ensures buffer[start + n..] == old(buffer[start + n..])
  {
    hide FirstBytes, FirstUnits;
    EncodedLength(text);
    var offset, i := start, 0;
    ghost var done: Bytes := [];
    while i < |text|
      invariant i <= |text| && offset == start + |done|
      invariant done + Encoded(text[i..]) == Encoded(text)
      invariant offset + |Encoded(text[i..])| <= buffer.Length
      invariant buffer[..offset] == old(buffer[..start]) + done
      invariant buffer[offset..] == old(buffer[offset..])
    {
      var left := text[i..];
      ghost var before := offset;
      assert text[i + FirstUnits(left)..] == left[FirstUnits(left)..];
      EncodedStep(done, left);
      offset := WriteFirst(left, buffer, offset);
      assert old(buffer[before..])[|FirstBytes(left)|..] == old(buffer[offset..]);
      done := done + FirstBytes(left);
      i := i + FirstUnits(left);
    }
    assert text[i..] == [];
    assert done == Encoded(text);
    assert buffer[start..offset] == buffer[..offset][start..];
    n := offset - start;
  }

  lemma EncodedStep(done: Bytes, left: Text)
    requires left != []
    ensures done + Encoded(left) == done + FirstBytes(left) + Encoded(left[FirstUnits(left)..])
    ensures |Encoded(left)| == |FirstBytes(left)| + |Encoded(left[FirstUnits(left)..])|
  {
    hide FirstBytes, FirstUnits;
    var first, rest := FirstBytes(left), Encoded(left[FirstUnits(left)..]);
    assert done + (first + rest) == done + first + rest;
  }

  method ReadUtf8(buffer: array<Byte>, start: nat, end: nat) returns (str: Text)
    requires end <= buffer.Length
    ensures str == Decoded(buffer[..], start, end)
  {
    hide TurnAt;
    str := [];
    if end < start + 1 {
      return;
    }
    var i := start;
    while i < end
      invariant start <= i
      invariant str + Decoded(buffer[..], i, end) == Decoded(buffer[..], start, end)
      decreases end - i
    {
      DecodedStep(str, buffer[..], i, end);
      var units, next := ReadTurn(buffer, i);
      str := str + units;
      i := next;
    }
    assert str + [] == str;
  }

  lemma DecodedStep(str: Text, s: Bytes, i: nat, end: nat)
    requires i < end <= |s|
    ensures str + Decoded(s, i, end) == str + TurnAt(s, i).units + Decoded(s, TurnAt(s, i).next, end)
  {
    hide TurnAt;
  }

  /** One turn of the loop of ReadUtf8. */
  method ReadTurn(buffer: array<Byte>, start: nat) returns (units: Text, i: nat)
    requires start < buffer.Length
    ensures Turn(units, i) == TurnAt(buffer[..], start)
  {
    ghost var s := buffer[..];
    i := start;
    var t := buffer[i] as int;
    i := i + 1;
    if t <= 0x7f {
      units := [t as CodeUnit];
    } else if t >= 0xc0 && t < 0xe0 {
      var b := Masked(buffer, i);
      i := i + 1;
      units := [(t % 32 * 64 + b) as CodeUnit];
    } else if t >= 0xe0 && t < 0xf0 {
      var b := Masked(buffer, i);
      i := i + 1;
      var c := Masked(buffer, i);
      i := i + 1;
      units := [(t % 16 * 4096 + b * 64 + c) as CodeUnit];
    } else if t >= 0xf0 {
      var b := Masked(buffer, i);
      i := i + 1;
      var c := Masked(buffer, i);
      i := i + 1;
      var d := Masked(buffer, i);
      i := i + 1;
      var t2 := t % 8 * 262144 + b * 4096 + c * 64 + d - 0x10000;
      units := [((0xd800 + t2 / 1024) % 0x10000) as CodeUnit, (0xdc00 + t2 % 1024) as CodeUnit];
    } else {
      units := [];
    }
  }

  /** buffer[i] & 0x3f */
  method Masked(buffer: array<Byte>, i: nat) returns (b: nat)
    ensures b == Low6(buffer[..], i)
  {
    b := if i < buffer.Length then buffer[i] as nat % 64 else 0;
  }

  /** Writing into a large enough buffer and reading it back gives the same code units. */
  method WriteThenRead(text: Text, buffer: array<Byte>, start: nat) returns (back: Text)
    requires start + |Encoded(text)| <= buffer.Length
    modifies buffer
    ensures back == text
  {
    hide Encoded, Decoded;
    var n := WriteUtf8(text, buffer, start);
    assert buffer[..][start..start + n] == buffer[start..start + n];
    DecodedOfEncoded(text, buffer[..], start);
    back := ReadUtf8(buffer, start, start + n);
  }

  lemma NothingToDecode()
    ensures Decoded([], 0, 0) == []
  {
  }

  /** A codec built from these two functions keeps every text. */
  lemma KeepsEveryText(codec: Codec, t: Text)
    requires forall u :: codec.encodeText(u) == Encoded(u)
    requires forall s: Bytes :: codec.decodeText(s) == Decoded(s, 0, |s|)
    ensures codec.KeepsText(t)
  {
    hide Encoded, Decoded;
    var e := Encoded(t);
    AtWhole(e);
    DecodedOfEncoded(t, e, 0);
    assert codec.encodeText(t) == e;
    assert codec.decodeText(e) == Decoded(e, 0, |e|) == t;
    if e == [] {
      NothingToDecode();
    }
  }

  // ---- the standard ------------------------------------------------------------------------------------------

  /** A Unicode scalar value: a character number outside the surrogate range. */
  predicate IsScalar(p: int) {
    0 <= p < 0xd800 || 0xe000 <= p < 0x110000
  }

  /** Encoding UTF-16, section 2.1 of RFC 2781. */
  function Utf16(p: int): (t: Text)
    requires IsScalar(p)
    ensures t != []
  {
    if p < 0x10000 then [p as CodeUnit]
    else [(0xd800 + (p - 0x10000) / 1024) as CodeUnit, (0xdc00 + (p - 0x10000) % 1024) as CodeUnit]
  }

  /** The octet sequences of the table in section 3 of RFC 3629: the bits of the character number fill
      0xxxxxxx, 110xxxxx 10xxxxxx, and so on, from the lowest up. */
  function Octets(p: int): Bytes
    requires IsScalar(p)
  {
    var x0, x1, x2, x3 := p % 64, p / 64 % 64, p / 64 / 64 % 64, p / 64 / 64 / 64;
    if p <= 0x7f then [p as Byte]
    else if p <= 0x7ff then [(0xc0 + x1) as Byte, (0x80 + x0) as Byte]
    else if p <= 0xffff then [(0xe0 + x2) as Byte, (0x80 + x1) as Byte, (0x80 + x0) as Byte]
    else [(0xf0 + x3) as Byte, (0x80 + x2) as Byte, (0x80 + x1) as Byte, (0x80 + x0) as Byte]
  }

  function Utf16All(ps: seq<int>): Text
    requires forall i :: 0 <= i < |ps| ==> IsScalar(ps[i])
  {
    if ps == [] then [] else Utf16(ps[0]) + Utf16All(ps[1..])
  }

  function OctetsAll(ps: seq<int>): Bytes
    requires forall i :: 0 <= i < |ps| ==> IsScalar(ps[i])
  {
    if ps == [] then [] else Octets(ps[0]) + OctetsAll(ps[1..])
  }

  lemma PairOfScalar(p: int)
    requires 0x10000 <= p < 0x110000
    ensures var t := Utf16(p);
            |t| == 2 && IsHigh(t[0]) && IsLow(t[1]) && PairValue(t[0], t[1]) == p && t[0] as int >= 2048
  {
  }

  lemma OctetsOfFour(p: int)
    requires 0x10000 <= p < 0x110000
    ensures FourOf(p) == Octets(p)
  {
    assert p / 4096 == p / 64 / 64 && p / 262144 == p / 64 / 64 / 64;
  }

  lemma FirstIsStandard(p: int, rest: Text)
    requires IsScalar(p)
    ensures var t := Utf16(p) + rest;
            FirstUnits(t) == |Utf16(p)| && FirstBytes(t) == Octets(p)
  {
    if p >= 0x10000 {
      PairIsStandard(p, rest);
    } else {
      UnitIsStandard(p, rest);
    }
  }

  lemma PairIsStandard(p: int, rest: Text)
    requires 0x10000 <= p < 0x110000
    ensures var t := Utf16(p) + rest;
            FirstUnits(t) == |Utf16(p)| && FirstBytes(t) == Octets(p)
  {
    hide PairValue, FourOf, Octets, Utf16, IsHigh, IsLow;
    PairOfScalar(p);
    OctetsOfFour(p);
  }

  lemma UnitIsStandard(p: int, rest: Text)
    requires IsScalar(p) && p < 0x10000
    ensures var t := [p as CodeUnit] + rest;
            FirstUnits(t) == 1 && FirstBytes(t) == Octets(p)
  {
    hide PairValue, FourOf;
    var t := [p as CodeUnit] + rest;
    assert !IsHigh(t[0]);
    assert p / 4096 == p / 64 / 64;
  }

  /** On well-formed text, the UTF-16 form of any list of scalar values, the bytes written are those of
      the standard. */
  lemma {:induction false} EncodedIsStandard(ps: seq<int>)
    requires forall i :: 0 <= i < |ps| ==> IsScalar(ps[i])
    ensures Encoded(Utf16All(ps)) == OctetsAll(ps)
  {
    hide FirstBytes, FirstUnits, Octets, Utf16;
    if ps != [] {
      var rest := Utf16All(ps[1..]);
      FirstIsStandard(ps[0], rest);
      assert (Utf16(ps[0]) + rest)[|Utf16(ps[0])|..] == rest;
      EncodedIsStandard(ps[1..]);
    }
  }
}

/** The wire format in literal bytes, without the names the other modules give to type codes, sizes and tables:
    what each value is written as, which bytes are accepted as a packet, and what they are read as. */
module WireBytes {
  import opened ByteStrings
  import opened Codecs
  import opened Reading
  import opened Headers
  import opened Format

  // ---- writing ------------------------------------------------------------------------------------------

  /** '[', the letter, the size, the content, ']'. */
  function Sized(letter: Byte, content: Bytes): Bytes {
    [0x5b, letter] + UInt32(|content|) + content + [0x5d]
  }

  function Image(codec: Codec, v: Value): Bytes {
    match v
    case Null => [0x5b, 0x4e, 0x5d]
    case Undefined => [0x5b, 0x55, 0x5d]
    case Bool(b) => [0x5b, if b then 0x54 else 0x46, 0x5d]
    case Int(n) => if n < 0 then [0x5b, 0x2d] + UInt32(-n) + [0x5d] else [0x5b, 0x2b] + UInt32(n) + [0x5d]
    case Double(raw) => [0x5b, 0x64] + raw + [0x5d]
    case Date(raw) => [0x5b, 0x44] + raw + [0x5d]
    case Str(text) => Sized(0x73, codec.encodeText(text))
    case Buf(bytes) => Sized(0x42, bytes)
    case Obj(o) => Sized(0x6f, codec.encodeText(codec.stringify(o)))
    case Binary(code, data) => Sized(0x43, [(code % 256) as Byte] + data)
    case Arr(items) => Sized(0x41, UInt32(|items|) + EncodeAll(codec, items))
  }

  /** The bytes of every packet, and the header announced for it. */
  lemma ImageOfEveryValue(codec: Codec, v: Value)
    ensures Encode(codec, v) == Image(codec, v)
    ensures v.Str? || v.Buf? || v.Obj? || v.Binary? || v.Arr? ==>
              HeaderOf(codec, v).headerSize == 6 && HeaderOf(codec, v).contentSize == |Encode(codec, v)| - 7
    ensures !(v.Str? || v.Buf? || v.Obj? || v.Binary? || v.Arr?) ==>
              HeaderOf(codec, v).headerSize == 2 && HeaderOf(codec, v).contentSize == |Encode(codec, v)| - 3
    ensures HeaderOf(codec, v).kind == 0x5b + 256 * Encode(codec, v)[1] as int
  {
    hide UInt32, EncodeAll, IsDynamic, Content, DeclareHeader;
    LetterOf(v);
    ContentOf(codec, v);
    PairOfLetter(KindOf(v) / 256);
  }

  lemma PairOfLetter(letter: nat)
    requires letter < 256
    ensures UInt16(letter * 256 + 0x5b) == [0x5b, letter as Byte]
  {
  }

  /** The letters, as they follow '[' on the wire. */
  lemma LetterOf(v: Value)
    ensures KindOf(v) % 256 == 0x5b
    ensures KindOf(v) / 256
            == match v
               case Null => 0x4e
               case Undefined => 0x55
               case Bool(b) => (if b then 0x54 else 0x46)
               case Int(n) => (if n < 0 then 0x2d else 0x2b)
               case Double(_) => 0x64
               case Date(_) => 0x44
               case Str(_) => 0x73
               case Buf(_) => 0x42
               case Obj(_) => 0x6f
               case Binary(_, _) => 0x43
               case Arr(_) => 0x41
    ensures IsDynamic(KindOf(v)) <==> v.Str? || v.Buf? || v.Obj? || v.Binary? || v.Arr?
  {
  }

  lemma ContentOf(codec: Codec, v: Value)
    ensures Content(codec, v)
            == match v
               case Int(n) => UInt32(if n < 0 then -n else n)
               case Double(raw) => raw
               case Date(raw) => raw
               case Str(text) => codec.encodeText(text)
               case Buf(bytes) => bytes
               case Obj(o) => codec.encodeText(codec.stringify(o))
               case Binary(code, data) => [(code % 256) as Byte] + data
               case Arr(items) => UInt32(|items|) + EncodeAll(codec, items)
               case _ => []
  {
  }

  /** Numbers are stored with the low byte first. */
  lemma LowByteFirst(n: nat)
    requires n < 0x1_0000_0000
    ensures UInt32(0x04030201) == [1, 2, 3, 4]
    ensures Number(UInt32(n), 0) == n
  {
    UInt32RoundTrip(n);
  }

  /** The number in the four bytes at position at. */
  function Number(s: Bytes, at: nat): nat
    requires at + 4 <= |s|
  {
    s[at] as nat + 0x100 * s[at + 1] as nat + 0x10000 * s[at + 2] as nat + 0x1000000 * s[at + 3] as nat
  }

  /** Which values fit the format. */
  lemma FitsExactly(codec: Codec, v: Value)
    ensures Fits(codec, v)
            <==> match v
                 case Int(n) => -0x1_0000_0000 < n < 0x1_0000_0000
                 case Double(raw) => |raw| == 8
                 case Date(raw) => |raw| == 8
                 case Str(text) => |codec.encodeText(text)| < 0x1_0000_0000
                 case Buf(bytes) => |bytes| < 0x1_0000_0000
                 case Obj(o) => |codec.encodeText(codec.stringify(o))| < 0x1_0000_0000
                 case Binary(code, data) => |data| < 0xffff_ffff && CodeTakes(code, |data|) && code != 11
                 case Arr(items) =>
                   && |items| < 0x1_0000_0000 && |EncodeAll(codec, items)| < 0xffff_fffc
                   && forall i :: 0 <= i < |items| ==> Fits(codec, items[i])
                 case _ => true
  {
  }

  /** ArrayBuffer, Uint8Array, Uint8ClampedArray and Int8Array take any length; Uint16Array and Int16Array even
      ones; Uint32Array, Int32Array and Float32Array multiples of 4; BigInt64Array, BigUint64Array and
      Float64Array multiples of 8. */
  predicate CodeTakes(code: nat, length: nat) {
    || code in {0, 1, 2, 5}
    || (code in {3, 6} && length % 2 == 0)
    || (code in {4, 8, 11} && length % 4 == 0)
    || (code in {9, 10, 12} && length % 8 == 0)
  }

  /** What an ArrayBuffer content is read as, code by code. */
  lemma BinaryExactly(s: Bytes, at: nat, size: nat)
    requires at + size < |s|
    ensures var code, end := s[at] as nat, if size == 0 then at + 1 else at + size;
            BinaryAt(s, at, size)
            == if CodeTakes(code, end - at - 1) then Ok(Binary(code, s[at + 1..end]), end)
               else if code == 7 || code > 12 then Ok(Undefined, end)
               else Stopped
  {
  }

  // ---- which bytes are a packet ----------------------------------------------------------------------------

  predicate IsEmptyLetter(b: Byte) {
    b == 0x4e || b == 0x55 || b == 0x54 || b == 0x46  // N U T F
  }

  predicate IsIntegerLetter(b: Byte) {
    b == 0x2b || b == 0x2d  // + -
  }

  predicate IsDoubleLetter(b: Byte) {
    b == 0x64 || b == 0x44  // d D
  }

  predicate IsSizedLetter(b: Byte) {
    b == 0x73 || b == 0x42 || b == 0x6f || b == 0x41 || b == 0x43  // s B o A C
  }

  /** The number of content bytes of the packet at at, when its first bytes announce one. */
  function ContentSize(s: Bytes, at: nat): Option<nat> {
    if at + 2 > |s| || s[at] != 0x5b then None
    else if IsEmptyLetter(s[at + 1]) then Some(0)
    else if IsIntegerLetter(s[at + 1]) then Some(4)
    else if IsDoubleLetter(s[at + 1]) then Some(8)
    else if IsSizedLetter(s[at + 1]) && at + 6 <= |s| then Some(Number(s, at + 2))
    else None
  }

  function HeaderLength(letter: Byte): nat {
    if IsSizedLetter(letter) then 6 else 2
  }

  /** A complete packet: '[', one of fifteen letters, and as many bytes as they announce, one more for the footer
      included. What the footer is does not matter. */
  predicate PacketStands(s: Bytes, at: nat) {
    ContentSize(s, at).Some? && at + HeaderLength(s[at + 1]) + ContentSize(s, at).value + 1 <= |s|
  }

  lemma Declared(s: Bytes, at: nat)
    requires at + 2 <= |s|
    ensures UInt16At(s, at) == s[at] as nat + 256 * s[at + 1] as nat
    ensures var raw := DeclareHeader(UInt16At(s, at), -1);
            if s[at] != 0x5b then raw == InvalidHeader
            else if IsEmptyLetter(s[at + 1]) then raw == RawHeader(UInt16At(s, at), 2, 0)
            else if IsIntegerLetter(s[at + 1]) then raw == RawHeader(UInt16At(s, at), 2, 4)
            else if IsDoubleLetter(s[at + 1]) then raw == RawHeader(UInt16At(s, at), 2, 8)
            else if IsSizedLetter(s[at + 1]) then raw == RawHeader(UInt16At(s, at), 6, -1)
            else raw == InvalidHeader
    ensures IsEmptyLetter(s[at + 1]) || IsIntegerLetter(s[at + 1]) || IsDoubleLetter(s[at + 1]) || IsSizedLetter(s[at + 1])
            ==> UInt16At(s, at) != NotValid
  {
  }

  /** On any bytes: a header is complete if and only if a packet stands there, and says its letter and its sizes;
      otherwise it is the invalid record, and the cursor is behind what was looked at. */
  lemma HeaderExactly(s: Bytes, at: nat)
    requires at <= |s|
    ensures Complete(s, at) <==> PacketStands(s, at)
    ensures PacketStands(s, at) ==>
              && HeaderAt(s, at).raw
                 == RawHeader(0x5b + 256 * s[at + 1] as int, HeaderLength(s[at + 1]), ContentSize(s, at).value)
              && HeaderAt(s, at).next == at + HeaderLength(s[at + 1])
    ensures !PacketStands(s, at) ==>
              && HeaderAt(s, at).raw == RawHeader(0x585b, -1, -1) && HeaderAt(s, at).raw.IsNotValid()
              && HeaderAt(s, at).next
                 == if at + 2 > |s| then at
                    else if s[at] == 0x5b && IsSizedLetter(s[at + 1]) && at + 6 <= |s| then at + 6
                    else at + 2
  {
    hide UInt16At, DeclareHeader, IsEmptyLetter, IsIntegerLetter, IsDoubleLetter, IsSizedLetter;
    NoHeader();
    if at + 2 <= |s| {
      Declared(s, at);
      ApartLetters(s[at + 1]);
    }
  }

  lemma ApartLetters(b: Byte)
    ensures IsSizedLetter(b) ==> !IsEmptyLetter(b) && !IsIntegerLetter(b) && !IsDoubleLetter(b)
    ensures IsEmptyLetter(b) ==> !IsIntegerLetter(b) && !IsDoubleLetter(b)
    ensures IsIntegerLetter(b) ==> !IsDoubleLetter(b)
  {
  }

  lemma NoHeader()
    ensures InvalidHeader == RawHeader(0x585b, -1, -1) && InvalidHeader.IsNotValid()
  {
  }

  // ---- what a packet is read as ------------------------------------------------------------------------------

  /** The value of the packet with this letter whose content of this size starts at at, and where it ends. Numbers
      take their bytes whatever the size. */
  function Meaning(codec: Codec, s: Bytes, letter: Byte, at: nat, size: nat, flat: bool): Outcome<Value>
    requires at + size < |s|
  {
    var content, text := s[at..at + size], if size == 0 then [] else codec.decodeText(s[at..at + size]);
    if letter == 0x4e then Ok(Null, at)
    else if letter == 0x54 then Ok(Bool(true), at)
    else if letter == 0x46 then Ok(Bool(false), at)
    else if letter == 0x2b then if at + 4 > |s| then Stopped else Ok(Int(Number(s, at)), at + 4)
    else if letter == 0x2d then if at + 4 > |s| then Stopped else Ok(Int(0 - Number(s, at)), at + 4)
    else if letter == 0x64 then if at + 8 > |s| then Stopped else Ok(Double(s[at..at + 8]), at + 8)
    else if letter == 0x44 then if at + 8 > |s| then Stopped else Ok(Date(s[at..at + 8]), at + 8)
    else if letter == 0x73 then Ok(Str(text), at + size)
    else if letter == 0x42 then Ok(Buf(content), at + size)
    else if letter == 0x6f then
      match codec.parse(text)
      case Some(o) => Ok(Obj(o), at + size)
      case None => Stopped
    else if letter == 0x43 then
      if size == 0 && !flat then Unmodelled else BinaryAt(s, at, size)
    else if letter == 0x41 then
      if at + 4 > |s| then Stopped
      else
        match ElementsAt(codec, s, at + 4, Number(s, at), flat)
        case Ok(vs, next) => Ok(Arr(vs), next)
        case Stopped => Stopped
        case Unmodelled => Unmodelled
    else Ok(Undefined, at)
  }

  lemma {:induction false} ContentExactly(codec: Codec, s: Bytes, letter: Byte, at: nat, size: nat, flat: bool)
    requires at + size < |s|
    ensures ContentAt(codec, s, at, 0x5b + 256 * letter as int, size, flat) == Meaning(codec, s, letter, at, size, flat)
  {
    hide ElementsAt, BinaryAt;
  }

  /** On any bytes: reading gives what the letter means, and skips the footer unless that would reach the end of the
      data; where no packet stands it gives undefined. */
  lemma {:induction false} ReadExactly(codec: Codec, s: Bytes, at: nat, flat: bool)
    requires at <= |s|
    ensures !PacketStands(s, at) ==> ReadAt(codec, s, at, flat) == Ok(Undefined, HeaderAt(s, at).next)
    ensures PacketStands(s, at) ==>
              ReadAt(codec, s, at, flat)
              == match Meaning(codec, s, s[at + 1], at + HeaderLength(s[at + 1]), ContentSize(s, at).value, flat)
                 case Ok(v, next) => Ok(v, if next + 1 < |s| then next + 1 else next)
                 case Stopped => Stopped
                 case Unmodelled => Unmodelled
  {
    hide HeaderAt, ContentAt, Meaning;
    HeaderExactly(s, at);
    if PacketStands(s, at) {
      ContentExactly(codec, s, s[at + 1], at + HeaderLength(s[at + 1]), ContentSize(s, at).value, flat);
    }
  }
}

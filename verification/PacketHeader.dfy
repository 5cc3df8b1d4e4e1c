/** src/packet/ipcPacketHeader.ts: type codes, declared headers and the reading of a header. */
module Headers {
  import opened ByteStrings
  import opened ListReading
  import opened Reading

  const HeaderSeparator: nat := '[' as nat
  const FooterSeparator: Byte := 93  // ']'
  const FooterLength: nat := 1
  const FixedHeaderSize: nat := 2
  const ContentFieldSize: nat := 4
  const DynamicHeaderSize: nat := FixedHeaderSize + ContentFieldSize

  function TypeHeader(letter: char): nat {
    letter as nat * 256 + HeaderSeparator
  }

  const NotValid := TypeHeader('X')
  const PartialHeader := TypeHeader('p')
  const PositiveInteger := TypeHeader('+')
  const NegativeInteger := TypeHeader('-')
  const ArrayWithSize := TypeHeader('A')
  const BufferType := TypeHeader('B')
  const ArrayBufferWithSize := TypeHeader('C')
  const DateType := TypeHeader('D')
  const BooleanFalse := TypeHeader('F')
  const NullType := TypeHeader('N')
  const BooleanTrue := TypeHeader('T')
  const UndefinedType := TypeHeader('U')
  const DoubleType := TypeHeader('d')
  const ObjectStringify := TypeHeader('o')
  const StringType := TypeHeader('s')

  datatype RawHeader = RawHeader(kind: nat, headerSize: int, contentSize: int) {
    function PacketSize(): int {
      contentSize + (headerSize + FooterLength)
    }

    predicate IsNotValid() {
      kind == NotValid
    }
  }

  const InvalidHeader := RawHeader(NotValid, -1, -1)

  function DeclareHeader(kind: nat, contentSize: int): RawHeader {
    if kind == DateType || kind == DoubleType then
      RawHeader(kind, FixedHeaderSize, 8)
    else if kind == NegativeInteger || kind == PositiveInteger then
      RawHeader(kind, FixedHeaderSize, 4)
    else if kind == BooleanTrue || kind == BooleanFalse || kind == NullType || kind == UndefinedType then
      RawHeader(kind, FixedHeaderSize, 0)
    else if kind == ObjectStringify || kind == StringType || kind == BufferType
            || kind == ArrayWithSize || kind == ArrayBufferWithSize then
      RawHeader(kind, DynamicHeaderSize, contentSize)
    else
      InvalidHeader
  }

  /** A header read at some offset, and where the cursor stands afterwards. */
  datatype Peeked = Peeked(raw: RawHeader, next: nat)

  /** The header found at offset at of a flat byte string: complete (contentSize >= 0) only when the
      whole packet is there. */
  function HeaderAt(s: Bytes, at: nat): (p: Peeked)
    requires at <= |s|
    ensures at <= p.next <= |s|
    ensures p.raw.contentSize >= 0 ==>
              && p.next == at + p.raw.headerSize && p.raw.headerSize >= FixedHeaderSize
              && at + p.raw.PacketSize() <= |s|
    ensures p.raw.contentSize < 0 <==> p.raw == InvalidHeader
    ensures p.raw.contentSize < 0 <==> p.raw.IsNotValid()
  {
    if at + FixedHeaderSize > |s| then
      Peeked(InvalidHeader, at)
    else
      var raw := DeclareHeader(UInt16At(s, at), -1);
      if raw.IsNotValid() then
        Peeked(raw, at + FixedHeaderSize)
      else if raw.headerSize == DynamicHeaderSize then
        if at + DynamicHeaderSize > |s| then
          Peeked(InvalidHeader, at + FixedHeaderSize)
        else
          var contentSize := UInt32At(s, at + FixedHeaderSize);
          if at + DynamicHeaderSize + contentSize + FooterLength > |s| then
            Peeked(InvalidHeader, at + DynamicHeaderSize)
          else
            Peeked(raw.(contentSize := contentSize), at + DynamicHeaderSize)
      else if at + FixedHeaderSize + raw.contentSize + FooterLength > |s| then
        Peeked(InvalidHeader, at + FixedHeaderSize)
      else
        Peeked(raw, at + FixedHeaderSize)
  }

  /** Whether a complete packet starts at offset at. */
  predicate Complete(s: Bytes, at: nat)
    requires at <= |s|
  {
    HeaderAt(s, at).raw.contentSize >= 0
  }

  /** Reading a header over either reader finds what HeaderAt finds; the bytes are untouched, and
      merging can only have happened when two bytes were there. */
  method ReadHeader(r: Reader) returns (raw: RawHeader)
    requires r.Valid()
    modifies r.Repr()
    ensures r.Valid() && r.Kept()
    ensures Peeked(raw, r.Offset()) == HeaderAt(r.Data(), old(r.Offset()))
    ensures r.Stamp() != old(r.Stamp()) ==> old(r.Offset()) + FixedHeaderSize <= |r.Data()|
  {
    hide Coordinates;
    if r.CheckEOF(FixedHeaderSize) {
      return DeclareHeader(PartialHeader, -1);
    }
    var kind := r.ReadUInt16();
    raw := DeclareHeader(kind.value, -1);
    if raw.IsNotValid() {
      return;
    }
    if raw.headerSize == DynamicHeaderSize {
      if r.CheckEOF(ContentFieldSize) {
        return DeclareHeader(PartialHeader, -1);
      }
      var contentSize := r.ReadUInt32();
      raw := raw.(contentSize := contentSize.value);
    }
    if r.CheckEOF(raw.contentSize + FooterLength) {
      return DeclareHeader(PartialHeader, -1);
    }
  }

  // ---- what a header depends on --------------------------------------------------------------

  /** A complete packet at at is decided by its own bytes: the same header is found wherever those
      bytes occur, whatever follows them. */
  lemma HeaderIsLocal(s: Bytes, at: nat, t: Bytes, at': nat)
    requires at <= |s| && at' <= |t| && Complete(s, at)
    requires At(t, at', s[at..at + HeaderAt(s, at).raw.PacketSize()])
    ensures HeaderAt(t, at').raw == HeaderAt(s, at).raw
  {
    var raw := HeaderAt(s, at).raw;
    var e := s[at..at + raw.PacketSize()];
    AtIndex(t, at', e, 0);
    AtIndex(t, at', e, 1);
    if raw.headerSize == DynamicHeaderSize {
      AtIndex(t, at', e, 2);
      AtIndex(t, at', e, 3);
      AtIndex(t, at', e, 4);
      AtIndex(t, at', e, 5);
    }
  }
}

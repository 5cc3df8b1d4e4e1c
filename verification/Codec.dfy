/** The foreign calls of the repository: text encoding and the JSON-like codec of a packet. */
module Codecs {
  import opened ByteStrings

  /** A JavaScript string is a sequence of UTF-16 code units. */
  newtype CodeUnit = u: int | 0 <= u < 0x10000
  type Text = seq<CodeUnit>

  /** A plain object, of which only deep equality matters here. */
  datatype PlainObject = PlainObject(id: int)

  /** encodeText and decodeText of src/utils/text.ts; Buffer.byteLength; stringify and parse of the packet's
      JSON codec, whose parse may throw. */
  datatype Codec = Codec(
    encodeText: Text -> Bytes,
    decodeText: Bytes -> Text,
    byteLength: Text -> nat,
    stringify: PlainObject -> Text,
    parse: Text -> Option<PlainObject>)
  {
    /** What readString returns for the given bytes. */
    function TextOf(bytes: Bytes): Text {
      if bytes == [] then [] else decodeText(bytes)
    }

    /** The text codec brings this string back. */
    predicate KeepsText(t: Text) {
      TextOf(encodeText(t)) == t
    }

    /** The two codecs bring this object back. */
    predicate KeepsObject(o: PlainObject) {
      parse(TextOf(encodeText(stringify(o)))) == Some(o)
    }
  }
}

/** `lib/append.js`: appending a chunk of data to a byte buffer. */
module Append {
  import opened Js
  import opened Text

  /** The `data` argument: left out (`undefined`), a `Buffer`, or a string. */
  datatype Data = Omitted | Bytes(bytes: seq<byte>) | Str(text: string)

  /** The bytes a chunk stands for: a `Buffer` as it is, a string in UTF-8. */
  function BytesOf(data: Data): seq<byte>
    requires !data.Omitted?
  {
    if data.Bytes? then data.bytes else Utf8(data.text)
  }

  /** `append(buffer, data, encoding)`. A missing `buffer` (`None`) reads as empty. A string
      is converted with `data.toString(encoding)`, and `String.prototype.toString` takes no
      argument, so the encoding never changes the bytes. */
  function Append(buffer: Option<seq<byte>>, data: Data, encoding: Option<string>): (r: Option<seq<byte>>)
    ensures data.Omitted? ==> r == buffer
    ensures !data.Omitted? ==> r.Some?
  {
    if data.Omitted? then buffer
    else Some(buffer.GetOr([]) + BytesOf(data))
  }

  /** With data given, the result holds the old buffer (an empty one when missing) followed by
      the chunk's bytes, and nothing else. */
  lemma AppendLayout(buffer: Option<seq<byte>>, data: Data, encoding: Option<string>)
    requires !data.Omitted?
    ensures |Append(buffer, data, encoding).value| == |buffer.GetOr([])| + |BytesOf(data)|
    ensures Append(buffer, data, encoding).value[..|buffer.GetOr([])|] == buffer.GetOr([])
    ensures Append(buffer, data, encoding).value[|buffer.GetOr([])|..] == BytesOf(data)
  {
    var b := buffer.GetOr([]);
    assert Append(buffer, data, encoding).value == b + BytesOf(data);
  }

  /** Whatever `encoding` says, a string is appended as its UTF-8 bytes: 'base64' does not
      decode it. */
  lemma EncodingIgnored(buffer: Option<seq<byte>>, text: string, encoding: Option<string>)
    ensures Append(buffer, Str(text), encoding) == Append(buffer, Str(text), None)
    ensures Append(buffer, Str(text), encoding) == Append(buffer, Bytes(Utf8(text)), None)
  {
  }

  /** Appending two strings one after the other is appending their concatenation, so a
      body written in pieces equals the body written at once. */
  lemma AppendTwice(buffer: Option<seq<byte>>, x: string, y: string, e1: Option<string>, e2: Option<string>)
    ensures Append(Append(buffer, Str(x), e1), Str(y), e2) == Append(buffer, Str(x + y), None)
  {
    Utf8Concat(x, y);
    ConcatAssoc(buffer.GetOr([]), Utf8(x), Utf8(y));
  }

  /** An ASCII string adds exactly one byte per character, each its character code. */
  lemma AppendAscii(buffer: seq<byte>, text: string)
    requires IsAscii(text)
    ensures var r := Append(Some(buffer), Str(text), None).value;
      |r| == |buffer| + |text| && forall i :: 0 <= i < |text| ==> r[|buffer| + i] == text[i] as int
  {
    Utf8Ascii(text);
  }
}

/** The white space that trimming removes, against Unicode's list of White_Space characters. */
module WhiteSpace {
  import opened GoText
  import opened Utf8Length

  /** Unicode's White_Space property. */
  predicate IsWhiteSpace(v: int)
  {
    || 0x09 <= v <= 0x0D || v == 0x20 || v == 0x85 || v == 0xA0 || v == 0x1680 || 0x2000 <= v <= 0x200A
    || v == 0x2028 || v == 0x2029 || v == 0x202F || v == 0x205F || v == 0x3000
  }

  /** A character's UTF-8 bytes. */
  function Bytes(v: int): (b: string)
    requires Scalar(v)
    ensures |b| == |Encode(v)|
  {
    EncodeRoundTrip(v);
    seq(|Encode(v)|, i requires 0 <= i < |Encode(v)| => Encode(v)[i] as char)
  }

  /** A character is trimmed exactly when Unicode calls it white space. */
  lemma TrimmedIffWhiteSpace(v: int)
    requires Scalar(v)
    ensures IsSpaceUnit(Bytes(v)) <==> IsWhiteSpace(v)
  {
    EncodeRoundTrip(v);
    SixBits(v);
    var b := Encode(v);
    assert |b| == 1 ==> b == [v];
    assert |b| == 2 ==> v == (b[0] - 0xC0) * 0x40 + (b[1] - 0x80);
    assert |b| == 3 ==> v == (b[0] - 0xE0) * 0x1000 + (b[1] - 0x80) * 0x40 + (b[2] - 0x80);
  }
}

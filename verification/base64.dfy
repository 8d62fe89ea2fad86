/**
  The PDF preview link: `pdf_bytes_to_data_uri` turns the compiled PDF into a
  `data:` URI (RFC 2397) whose payload is the standard base64 encoding of the
  bytes (section 4 of RFC 4648, with `=` padding).  The decoder is the partner
  that makes the encoder's correctness statable as a round trip.
*/
module Base64 {
  import opened Common

  /** The 64-character alphabet of section 4 of RFC 4648: A-Z, a-z, 0-9, '+', '/'. */
  predicate IsBase64Char(c: char) {
    ('A' <= c <= 'Z') || ('a' <= c <= 'z') || ('0' <= c <= '9') || c == '+' || c == '/'
  }

  /** The character that encodes the 6-bit value `i`. */
  function Char64(i: int): (c: char)
    requires 0 <= i < 64
    ensures IsBase64Char(c) && Index64(c) == i
  {
    if i < 26 then ('A' as int + i) as char
    else if i < 52 then ('a' as int + (i - 26)) as char
    else if i < 62 then ('0' as int + (i - 52)) as char
    else if i == 62 then '+'
    else '/'
  }

  /** The 6-bit value encoded by an alphabet character. */
  function Index64(c: char): (i: int)
    requires IsBase64Char(c)
    ensures 0 <= i < 64
  {
    if 'A' <= c <= 'Z' then c as int - 'A' as int
    else if 'a' <= c <= 'z' then c as int - 'a' as int + 26
    else if '0' <= c <= '9' then c as int - '0' as int + 52
    else if c == '+' then 62
    else 63
  }

  /** Three bytes become four characters. */
  function EncodeTriple(b0: Byte, b1: Byte, b2: Byte): string {
    [Char64(b0 / 4), Char64((b0 % 4) * 16 + b1 / 16), Char64((b1 % 16) * 4 + b2 / 64), Char64(b2 % 64)]
  }

  /** A final group of two bytes: three characters and one `=`. */
  function EncodePair(b0: Byte, b1: Byte): string {
    [Char64(b0 / 4), Char64((b0 % 4) * 16 + b1 / 16), Char64((b1 % 16) * 4), '=']
  }

  /** A final single byte: two characters and `==`. */
  function EncodeSingle(b0: Byte): string {
    [Char64(b0 / 4), Char64((b0 % 4) * 16), '=', '=']
  }

  /** The characters an encoding may contain: the alphabet and the pad. */
  predicate IsEncodingChar(c: char) {
    IsBase64Char(c) || c == '='
  }

  /** `base64.b64encode`: groups of three bytes from the front, the last group padded. */
  function Encode(b: seq<Byte>): (r: string)
    ensures |r| == 4 * ((|b| + 2) / 3)
    ensures forall i :: 0 <= i < |r| ==> IsEncodingChar(r[i])
    decreases |b|
  {
    if |b| == 0 then []
    else if |b| == 1 then EncodeSingle(b[0])
    else if |b| == 2 then EncodePair(b[0], b[1])
    else EncodeTriple(b[0], b[1], b[2]) + Encode(b[3..])
  }

  /** Padding appears only in the last two positions of an encoding. */
  lemma {:induction false} EncodePadsOnlyAtEnd(b: seq<Byte>)
    ensures forall i :: 0 <= i < |Encode(b)| - 2 ==> IsBase64Char(Encode(b)[i])
    decreases |b|
  {
    if |b| > 2 {
      EncodePadsOnlyAtEnd(b[3..]);
      var head, tail := EncodeTriple(b[0], b[1], b[2]), Encode(b[3..]);
      assert Encode(b) == head + tail;
      assert IsBase64Char(head[0]) && IsBase64Char(head[1]) && IsBase64Char(head[2]) && IsBase64Char(head[3]);
      forall i | 0 <= i < |head + tail| - 2
        ensures IsBase64Char((head + tail)[i])
      {
        if i >= 4 {
          assert (head + tail)[i] == tail[i - 4];
          assert 0 <= i - 4 < |tail| - 2;
        } else {
          assert (head + tail)[i] == head[i];
        }
      }
    }
  }

  /** Four alphabet characters back to three bytes. */
  function DecodeQuad(c0: char, c1: char, c2: char, c3: char): Option<seq<Byte>> {
    if IsBase64Char(c0) && IsBase64Char(c1) && IsBase64Char(c2) && IsBase64Char(c3) then
      var i0, i1, i2, i3 := Index64(c0), Index64(c1), Index64(c2), Index64(c3);
      Some([i0 * 4 + i1 / 16, (i1 % 16) * 16 + i2 / 4, (i2 % 4) * 64 + i3])
    else None
  }

  /** The last group, which may carry one or two `=` pads. */
  function DecodeLastQuad(c0: char, c1: char, c2: char, c3: char): Option<seq<Byte>> {
    if c2 == '=' && c3 == '=' then
      if IsBase64Char(c0) && IsBase64Char(c1) then
        Some([Index64(c0) * 4 + Index64(c1) / 16])
      else None
    else if c3 == '=' then
      if IsBase64Char(c0) && IsBase64Char(c1) && IsBase64Char(c2) then
        var i0, i1, i2 := Index64(c0), Index64(c1), Index64(c2);
        Some([i0 * 4 + i1 / 16, (i1 % 16) * 16 + i2 / 4])
      else None
    else DecodeQuad(c0, c1, c2, c3)
  }

  /**
    Inverse of Encode: a length that is a multiple of four, alphabet characters
    everywhere except `=` padding in the last group; anything else is rejected.
  */
  function Decode(s: string): (r: Option<seq<Byte>>)
    ensures r.Some? ==> |s| % 4 == 0
    decreases |s|
  {
    if |s| == 0 then Some([])
    else if |s| < 4 then None
    else if |s| == 4 then DecodeLastQuad(s[0], s[1], s[2], s[3])
    else
      match DecodeQuad(s[0], s[1], s[2], s[3])
      case None => None
      case Some(head) =>
        match Decode(s[4..])
        case None => None
        case Some(tail) => Some(head + tail)
  }

  lemma TripleRoundTrip(b0: Byte, b1: Byte, b2: Byte)
    ensures var e := EncodeTriple(b0, b1, b2);
            DecodeQuad(e[0], e[1], e[2], e[3]) == Some([b0, b1, b2])
            && DecodeLastQuad(e[0], e[1], e[2], e[3]) == Some([b0, b1, b2])
  {
    var i0, i1, i2, i3 := b0 / 4, (b0 % 4) * 16 + b1 / 16, (b1 % 16) * 4 + b2 / 64, b2 % 64;
    assert i1 / 16 == b0 % 4 && i1 % 16 == b1 / 16;
    assert i2 / 4 == b1 % 16 && i2 % 4 == b2 / 64;
  }

  lemma PairRoundTrip(b0: Byte, b1: Byte)
    ensures var e := EncodePair(b0, b1);
            DecodeLastQuad(e[0], e[1], e[2], e[3]) == Some([b0, b1])
  {
    var i1, i2 := (b0 % 4) * 16 + b1 / 16, (b1 % 16) * 4;
    assert i1 / 16 == b0 % 4 && i1 % 16 == b1 / 16;
    assert i2 / 4 == b1 % 16;
  }

  lemma SingleRoundTrip(b0: Byte)
    ensures var e := EncodeSingle(b0);
            DecodeLastQuad(e[0], e[1], e[2], e[3]) == Some([b0])
  {
    var i1 := (b0 % 4) * 16;
    assert i1 / 16 == b0 % 4;
  }

  /** A full leading group followed by a decodable non-empty rest decodes piecewise. */
  lemma DecodeCons(head: string, rest: string, h: seq<Byte>, t: seq<Byte>)
    requires |head| == 4 && |rest| > 0
    requires DecodeQuad(head[0], head[1], head[2], head[3]) == Some(h)
    requires Decode(rest) == Some(t)
    ensures Decode(head + rest) == Some(h + t)
  {
    var s := head + rest;
    assert s[0] == head[0] && s[1] == head[1] && s[2] == head[2] && s[3] == head[3];
    assert s[4..] == rest;
  }

  /** A single byte round-trips. */
  lemma DecodeEncodeSingle(b0: Byte)
    ensures Decode(Encode([b0])) == Some([b0])
  {
    SingleRoundTrip(b0);
    assert Encode([b0]) == EncodeSingle(b0);
  }

  /** Two bytes round-trip. */
  lemma DecodeEncodePair(b0: Byte, b1: Byte)
    ensures Decode(Encode([b0, b1])) == Some([b0, b1])
  {
    PairRoundTrip(b0, b1);
    assert Encode([b0, b1]) == EncodePair(b0, b1);
  }

  /** Three bytes round-trip. */
  lemma DecodeEncodeTriple(b0: Byte, b1: Byte, b2: Byte)
    ensures Decode(Encode([b0, b1, b2])) == Some([b0, b1, b2])
  {
    TripleRoundTrip(b0, b1, b2);
    assert [b0, b1, b2][3..] == [];
    assert Encode([b0, b1, b2]) == EncodeTriple(b0, b1, b2);
  }

  /** One full group in front of a round-tripping non-empty rest round-trips too. */
  lemma DecodeEncodeStep(b0: Byte, b1: Byte, b2: Byte, t: seq<Byte>)
    requires t != [] && Decode(Encode(t)) == Some(t)
    ensures Decode(Encode([b0, b1, b2] + t)) == Some([b0, b1, b2] + t)
  {
    var b := [b0, b1, b2] + t;
    assert b[0] == b0 && b[1] == b1 && b[2] == b2 && b[3..] == t;
    var head, rest := EncodeTriple(b0, b1, b2), Encode(t);
    assert Encode(b) == head + rest;
    TripleRoundTrip(b0, b1, b2);
    DecodeCons(head, rest, [b0, b1, b2], t);
  }

  /** A byte string of more than three bytes is its first group followed by the rest. */
  lemma FirstGroupSplit(b: seq<Byte>)
    requires |b| > 3
    ensures b == [b[0], b[1], b[2]] + b[3..]
  {
  }

  /** Decoding an encoding gives back exactly the original bytes. */
  lemma {:induction false} DecodeEncode(b: seq<Byte>)
    ensures Decode(Encode(b)) == Some(b)
    decreases |b|
  {
    if |b| == 1 {
      assert b == [b[0]];
      DecodeEncodeSingle(b[0]);
    } else if |b| == 2 {
      assert b == [b[0], b[1]];
      DecodeEncodePair(b[0], b[1]);
    } else if |b| == 3 {
      assert b == [b[0], b[1], b[2]];
      DecodeEncodeTriple(b[0], b[1], b[2]);
    } else if |b| > 3 {
      DecodeEncode(b[3..]);
      DecodeEncodeStep(b[0], b[1], b[2], b[3..]);
      FirstGroupSplit(b);
    }
  }

  /** Encoding is injective: different PDFs never share a data URI payload. */
  lemma EncodeInjective(a: seq<Byte>, b: seq<Byte>)
    requires Encode(a) == Encode(b)
    ensures a == b
  {
    DecodeEncode(a);
    DecodeEncode(b);
  }

  /**
    The test vectors of section 10 of RFC 4648 for "f", "fo", "foo" and
    "foobar", and one pair that reaches the last two alphabet characters.
  */
  lemma Rfc4648Vectors()
    ensures Encode([102]) == "Zg=="
    ensures Encode([102, 111]) == "Zm8="
    ensures Encode([102, 111, 111]) == "Zm9v"
    ensures Encode([102, 111, 111, 98, 97, 114]) == "Zm9vYmFy"
    ensures Encode([251, 255]) == "+/8="
  {
    assert Char64(62) == '+' && Char64(63) == '/' && Char64(60) == '8';
    assert EncodePair(251, 255) == "+/8=";
    assert Char64(25) == 'Z' && Char64(32) == 'g' && Char64(38) == 'm' && Char64(60) == '8';
    assert Char64(61) == '9' && Char64(47) == 'v';
    assert EncodeSingle(102) == "Zg==";
    assert EncodePair(102, 111) == "Zm8=";
    assert EncodeTriple(102, 111, 111) == "Zm9v";
    assert Char64(24) == 'Y' && Char64(5) == 'F' && Char64(50) == 'y';
    assert EncodeTriple(98, 97, 114) == "YmFy";
    var foobar: seq<Byte> := [102, 111, 111, 98, 97, 114];
    assert foobar[3..] == [98, 97, 114];
    assert Encode(foobar[3..]) == EncodeTriple(98, 97, 114) + Encode([]);
    assert Encode(foobar) == EncodeTriple(102, 111, 111) + Encode(foobar[3..]);
  }

  /** The fixed prefix of a PDF data URI (RFC 2397, base64 form). */
  const DataUriPrefix: string := "data:application/pdf;base64,"

  /** `pdf_bytes_to_data_uri`: the prefix followed by the base64 of the bytes. */
  function PdfBytesToDataUri(pdf: seq<Byte>): (r: string)
    ensures |r| == |DataUriPrefix| + 4 * ((|pdf| + 2) / 3)
    ensures r[..|DataUriPrefix|] == DataUriPrefix
    ensures forall i :: |DataUriPrefix| <= i < |r| ==> IsEncodingChar(r[i])
  {
    DataUriPrefix + Encode(pdf)
  }

  /** What a reader of the URI does: check the prefix, decode the rest. */
  function ParseDataUri(s: string): Option<seq<Byte>> {
    if |s| >= |DataUriPrefix| && s[..|DataUriPrefix|] == DataUriPrefix then
      Decode(s[|DataUriPrefix|..])
    else None
  }

  /** The data URI carries the PDF bytes unchanged. */
  lemma DataUriRoundTrip(pdf: seq<Byte>)
    ensures ParseDataUri(PdfBytesToDataUri(pdf)) == Some(pdf)
  {
    var u := PdfBytesToDataUri(pdf);
    assert u[|DataUriPrefix|..] == Encode(pdf);
    DecodeEncode(pdf);
  }
}

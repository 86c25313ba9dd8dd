/** The packets of the transport protocol and their encodings (module 22). */
module EnginePacket {
  import opened Js
  import Utf8
  import Base64

  /** open, close, ping, pong, message, upgrade, noop */
  type Code = x: int | 0 <= x < 7

  const MESSAGE: Code := 4

  datatype Data = Absent | Text(text: JsString) | Binary(bytes: seq<Byte>)

  datatype Packet = Packet(code: Code, data: Data)

  /** What decoding hands to its callback. A packet whose type byte is not in
      the table is passed on with an undefined type. */
  datatype Delivery =
    | Deliver(packet: Packet)
    | UnknownType(data: Data)
    | ParserError

  /** What goes over the wire for one packet. */
  datatype Encoded = Str(s: JsString) | Buf(bytes: seq<Byte>)

  function TextOf(data: Data): JsString
    requires !data.Binary?
  {
    if data.Text? then data.text else []
  }

  function EncodePacket(p: Packet, supportsBinary: bool, utf8encode: bool): Encoded {
    if p.data.Binary? then
      if supportsBinary then Buf([p.code] + p.data.bytes)
      else Str([LOWER_B, ZERO + p.code] + Base64.Encode(p.data.bytes))
    else
      var text := TextOf(p.data);
      Str([ZERO + p.code] + if utf8encode then Utf8Text(text) else text)
  }

  /** Lenient encoding never throws. */
  function Utf8Text(text: JsString): seq<Byte> {
    Utf8.EncodeThrows(text, false);
    Utf8.Encode(text, false).value
  }

  predicate IsTypeChar(s: JsString) {
    |s| > 0 && ZERO <= s[0] < ZERO + 7
  }

  function DecodeBase64Packet(s: JsString): Delivery {
    var data := Binary(Base64.Decode(if |s| > 0 then s[1..] else []));
    if IsTypeChar(s) then Deliver(Packet(s[0] - ZERO, data)) else UnknownType(data)
  }

  function DecodeTextPacket(s: JsString): Delivery {
    if IsTypeChar(s) then
      Deliver(Packet(s[0] - ZERO, if |s| > 1 then Text(s[1..]) else Absent))
    else ParserError
  }

  /** The slice helper of module 24: an end of zero means the whole buffer. */
  function Slice(bytes: seq<Byte>, start: nat, end: nat): (r: seq<Byte>)
    ensures |r| <= |bytes| && (start > 0 && |bytes| > 0 ==> |r| < |bytes|)
    ensures start <= end <= |bytes| && end > 0 ==> r == bytes[start..end]
    ensures start <= |bytes| && (end == 0 || end > |bytes|) ==> r == bytes[start..]
  {
    var to := if end == 0 || end > |bytes| then |bytes| else end;
    if start >= to then [] else bytes[start..to]
  }

  function DecodePacket(e: Encoded, utf8decode: bool): Delivery {
    match e
    case Buf(bytes) =>
      var data := Binary(Slice(bytes, 1, 0));
      if |bytes| > 0 && bytes[0] < 7 then Deliver(Packet(bytes[0], data)) else UnknownType(data)
    case Str(s) =>
      if |s| > 0 && s[0] == LOWER_B then DecodeBase64Packet(s[1..])
      else if utf8decode then
        match Utf8.Decode(s, false)
        case Thrown => ParserError
        case Ok(text) => DecodeTextPacket(text)
      else DecodeTextPacket(s)
  }

  /** The format: the type as a digit before text, as a byte before binary data, and
      behind a `b` before Base64. */
  lemma PacketFormat(p: Packet, supportsBinary: bool, utf8: bool)
    ensures p.data.Binary? ==>
              EncodePacket(p, supportsBinary, utf8) ==
              if supportsBinary then Buf([p.code as Byte] + p.data.bytes)
              else Str(['b' as int, '0' as int + p.code] + Base64.Encode(p.data.bytes))
    ensures !p.data.Binary? ==>
              var text := if p.data == Absent then [] else p.data.text;
              EncodePacket(p, supportsBinary, utf8) ==
              Str(['0' as int + p.code] + if utf8 then Utf8Text(text) else text)
  {
  }

  /** What is no packet: text that begins with no digit of a type is an error, but
      data of a type that does not exist is delivered without one. */
  lemma UnknownPackets(s: JsString, bytes: seq<Byte>)
    ensures s == [] || (s[0] != 'b' as int && !('0' as int <= s[0] <= '6' as int)) ==>
              DecodePacket(Str(s), false) == ParserError
    ensures s == [] || !('0' as int <= s[0] <= '6' as int) ==>
              DecodePacket(Str(['b' as int] + s), false) ==
              UnknownType(Binary(Base64.Decode(if s == [] then [] else s[1..])))
    ensures bytes == [] || bytes[0] > 6 ==>
              DecodePacket(Buf(bytes), false) == UnknownType(Binary(if bytes == [] then [] else bytes[1..]))
  {
    assert (['b' as int] + s)[1..] == s;
  }

  /** A packet as the receiver sees it: empty text data cannot be told from no
      data, and UTF-8 has no lone surrogates. */
  function Normal(p: Packet, utf8: bool): Packet {
    if p.data == Text([]) then p.(data := Absent)
    else if utf8 && p.data.Text? then p.(data := Text(Utf8.Sanitize(p.data.text)))
    else p
  }

  lemma Utf8PrependAscii(c: Unit, text: JsString)
    requires c < 0x80
    ensures Utf8Text([c] + text) == [c] + Utf8Text(text)
    ensures Utf8.Sanitize([c] + text) == [c] + Utf8.Sanitize(text)
  {
    Utf8.EncodeThrows(text, false);
    var s := [c] + text;
    assert s[1..] == text;
    assert Utf8.Ucs2Decode(s) == [c as Utf8.CodePoint] + Utf8.Ucs2Decode(text);
    assert Utf8.Ucs2Decode(s)[1..] == Utf8.Ucs2Decode(text);
    assert Utf8.EncodeCodePoint(c, false) == Ok([c]);
  }

  /** Decoding inverts encoding, with or without binary support and with or
      without UTF-8, up to what the wire cannot tell apart. */
  lemma PacketRoundTrip(p: Packet, supportsBinary: bool, utf8: bool)
    ensures DecodePacket(EncodePacket(p, supportsBinary, utf8), utf8) == Deliver(Normal(p, utf8))
  {
    hide Utf8.Sanitize, Utf8.Ucs2Decode, Utf8.Encode, Utf8.Decode, Utf8Text, Base64.Encode, Base64.Decode;
    if p.data.Binary? {
      Base64.RoundTrip(p.data.bytes);
      if supportsBinary {
        assert ([p.code] + p.data.bytes)[1..] == p.data.bytes;
      } else {
        var s := [LOWER_B, ZERO + p.code] + Base64.Encode(p.data.bytes);
        assert s[1..] == [ZERO + p.code] + Base64.Encode(p.data.bytes);
        assert s[1..][1..] == Base64.Encode(p.data.bytes);
      }
    } else if utf8 {
      Utf8TextRoundTrip(p.code, TextOf(p.data));
    }
  }

  lemma Utf8TextRoundTrip(code: Code, text: JsString)
    ensures Utf8.Decode([ZERO + code] + Utf8Text(text), false) == Ok([ZERO + code] + Utf8.Sanitize(text))
    ensures text == [] ==> Utf8.Sanitize(text) == []
  {
    var s := [ZERO + code] + text;
    Utf8PrependAscii(ZERO + code, text);
    Utf8.EncodeThrows(s, false);
    Utf8.DecodeOfEncode(s, false, false);
  }
}

/** Many packets in one message: the length-prefixed text payload and the
    binary payload (module 22). */
module EnginePayload {
  import opened Js
  import opened Numerals
  import opened EnginePacket

  // ---------- the text payload ----------

  /** `Number(s)` of the host. */
  type NumberOf = JsString -> JsNumber

  /** The one thing assumed of the host: it reads back decimal numerals. */
  ghost predicate ReadsDecimals(number: NumberOf) {
    forall n: nat :: number(Decimal(n)) == Finite(n as real)
  }

  function TextFrame(s: JsString): JsString {
    Decimal(|s|) + [COLON] + s
  }

  /** Without binary support every packet is encoded as a string. */
  function PacketString(p: Packet): JsString {
    EncodePacket(p, false, false).s
  }

  function TextFrames(ps: seq<Packet>): JsString {
    if ps == [] then [] else TextFrame(PacketString(ps[0])) + TextFrames(ps[1..])
  }

  function EncodeTextPayload(ps: seq<Packet>): JsString {
    if ps == [] then [ZERO, COLON] else TextFrames(ps)
  }

  /** The length a colon at the front of `rest` closes, if it is one. */
  function BodyLength(acc: JsString, rest: JsString, number: NumberOf): (r: Option<nat>)
    ensures r.Some? ==> r.value <= |rest|
  {
    match number(acc)
    case Finite(r) =>
      if acc != [] && 0.0 <= r && r.Floor as real == r && r.Floor <= |rest| then Some(r.Floor) else None
    case _ => None
  }

  /** What the callback receives from the text `rest`, after the characters
      `acc` of a length; `halt` tells when the callback asks to stop. */
  function DecodeText(rest: JsString, acc: JsString, number: NumberOf, halt: Delivery -> bool): (r: seq<Delivery>)
    decreases |rest|
  {
    if rest == [] then (if acc != [] then [ParserError] else [])
    else if rest[0] != COLON then DecodeText(rest[1..], acc + [rest[0]], number, halt)
    else
      match BodyLength(acc, rest[1..], number)
      case None => [ParserError]
      case Some(n) =>
        var after := rest[1 + n..];
        if n == 0 then DecodeText(after, [], number, halt)
        else
          var d := DecodePacket(Str(rest[1..1 + n]), false);
          if d == ParserError then [ParserError]
          else if halt(d) then [d]
          else [d] + DecodeText(after, [], number, halt)
  }

  function DecodeTextPayload(s: JsString, number: NumberOf, halt: Delivery -> bool): seq<Delivery> {
    if s == [] then [ParserError] else DecodeText(s, [], number, halt)
  }

  method DecodeTextLoop(s: JsString, number: NumberOf, halt: Delivery -> bool) returns (r: seq<Delivery>)
    ensures r == DecodeTextPayload(s, number, halt)
  {
    if s == [] { return [ParserError]; }
    r := [];
    var acc: JsString := [];
    var c := 0;
    assert s[0..] == s;
    while c < |s|
      invariant c <= |s|
      invariant r + DecodeText(s[c..], acc, number, halt) == DecodeText(s, [], number, halt)
    {
      hide DecodePacket;
      assert s[c..][1..] == s[c + 1..];
      ghost var before := r;
      if s[c] == COLON {
        var body := BodyLength(acc, s[c + 1..], number);
        if body.None? { return r + [ParserError]; }
        var n := body.value;
        assert s[c..][1 + n..] == s[c + 1 + n..] && s[c..][1..1 + n] == s[c + 1..c + 1 + n];
        if n > 0 {
          var d := DecodePacket(Str(s[c + 1..c + 1 + n]), false);
          if d == ParserError { return r + [ParserError]; }
          r := r + [d];
          if halt(d) { return; }
          ConcatAssociative(before, [d], DecodeText(s[c + 1 + n..], [], number, halt));
        }
        c := c + n;
        acc := [];
      } else {
        acc := acc + [s[c]];
      }
      c := c + 1;
    }
    if acc != [] { return r + [ParserError]; }
    assert r + [] == r;
  }

  /** The receiver's view of a list of packets, up to the first it stops at. */
  function Delivered(ps: seq<Packet>, utf8: bool, halt: Delivery -> bool): seq<Delivery> {
    if ps == [] then [] else
      var d := Deliver(Normal(ps[0], utf8));
      [d] + if halt(d) then [] else Delivered(ps[1..], utf8, halt)
  }

  lemma {:induction false} ReadLengthDigits(ds: JsString, rest: JsString, acc: JsString,
                                            number: NumberOf, halt: Delivery -> bool)
    requires forall i | 0 <= i < |ds| :: ds[i] != COLON
    ensures DecodeText(ds + rest, acc, number, halt) == DecodeText(rest, acc + ds, number, halt)
  {
    if ds == [] {
      assert ds + rest == rest && acc + ds == acc;
    } else {
      assert (ds + rest)[1..] == ds[1..] + rest;
      assert acc + [ds[0]] + ds[1..] == acc + ds;
      ReadLengthDigits(ds[1..], rest, acc + [ds[0]], number, halt);
    }
  }

  lemma DecodeTextFrame(s: JsString, rest: JsString, number: NumberOf, halt: Delivery -> bool)
    requires ReadsDecimals(number)
    ensures DecodeText(TextFrame(s) + rest, [], number, halt) ==
            DecodeText([COLON] + s + rest, Decimal(|s|), number, halt)
    ensures BodyLength(Decimal(|s|), s + rest, number) == Some(|s|)
  {
    hide DecodePacket, BodyLength;
    assert TextFrame(s) + rest == Decimal(|s|) + ([COLON] + s + rest);
    assert [] + Decimal(|s|) == Decimal(|s|);
    ReadLengthDigits(Decimal(|s|), [COLON] + s + rest, [], number, halt);
    BodyLengthOfDecimal(|s|, s + rest, number);
  }

  lemma BodyLengthOfDecimal(n: nat, rest: JsString, number: NumberOf)
    requires ReadsDecimals(number) && n <= |rest|
    ensures BodyLength(Decimal(n), rest, number) == Some(n)
  {
  }

  lemma {:induction false} TextFramesRoundTrip(ps: seq<Packet>, number: NumberOf, halt: Delivery -> bool)
    requires ReadsDecimals(number)
    ensures DecodeText(TextFrames(ps), [], number, halt) == Delivered(ps, false, halt)
  {
    hide DecodePacket, EncodePacket, BodyLength, Normal;
    if ps != [] {
      var s, rest := PacketString(ps[0]), TextFrames(ps[1..]);
      DecodeTextFrame(s, rest, number, halt);
      PacketRoundTrip(ps[0], false, false);
      PacketStringNotEmpty(ps[0]);
      var text := [COLON] + s + rest;
      assert text[1..] == s + rest && text[1..1 + |s|] == s && text[1 + |s|..] == rest;
      TextFramesRoundTrip(ps[1..], number, halt);
    }
  }

  lemma PacketStringNotEmpty(p: Packet)
    ensures EncodePacket(p, false, false).Str? && |PacketString(p)| > 0
  {
  }

  /** The text payload delivers exactly the packets, in order, whatever their
      data holds; an empty payload delivers nothing. */
  lemma TextPayloadRoundTrip(ps: seq<Packet>, number: NumberOf, halt: Delivery -> bool)
    requires ReadsDecimals(number)
    ensures DecodeTextPayload(EncodeTextPayload(ps), number, halt) == Delivered(ps, false, halt)
  {
    hide DecodePacket, EncodePacket;
    if ps == [] {
      assert Decimal(0) == [ZERO];
      assert TextFrame([]) + [] == [ZERO, COLON];
      DecodeTextFrame([], [], number, halt);
      assert [COLON] + [] + [] == [COLON];
      assert [COLON][1..] == [];
      assert DecodeText([], [], number, halt) == [];
    } else {
      TextFramesRoundTrip(ps, number, halt);
    }
  }

  ghost predicate NothingAfterAnError(r: seq<Delivery>) {
    forall i | 0 <= i < |r| - 1 :: r[i] != ParserError
  }

  lemma {:induction false} DecodeTextStopsAtError(rest: JsString, acc: JsString,
                                                  number: NumberOf, halt: Delivery -> bool)
    ensures NothingAfterAnError(DecodeText(rest, acc, number, halt))
    decreases |rest|
  {
    hide DecodePacket, BodyLength;
    if rest != [] {
      if rest[0] != COLON {
        DecodeTextStopsAtError(rest[1..], acc + [rest[0]], number, halt);
        assert DecodeText(rest, acc, number, halt) == DecodeText(rest[1..], acc + [rest[0]], number, halt);
      } else if BodyLength(acc, rest[1..], number).Some? {
        var n := BodyLength(acc, rest[1..], number).value;
        var tail := DecodeText(rest[1 + n..], [], number, halt);
        DecodeTextStopsAtError(rest[1 + n..], [], number, halt);
        var d := DecodePacket(Str(rest[1..1 + n]), false);
        assert d != ParserError ==> NothingAfterAnError([d] + tail);
      }
    }
  }

  /** On any text at all and any host the callback sees at most one error, and
      nothing after it. */
  lemma AtMostOneError(s: JsString, number: NumberOf, halt: Delivery -> bool)
    ensures NothingAfterAnError(DecodeTextPayload(s, number, halt))
  {
    DecodeTextStopsAtError(s, [], number, halt);
  }

  // ---------- texts that are no payload ----------

  lemma {:induction false} NoColon(s: JsString, acc: JsString, number: NumberOf, halt: Delivery -> bool)
    requires ':' as int !in s && acc + s != []
    ensures DecodeText(s, acc, number, halt) == [ParserError]
    decreases |s|
  {
    if s != [] { NoColon(s[1..], acc + [s[0]], number, halt); }
  }

  /** A text without a colon is an error, the empty one included. */
  lemma NoColonIsAnError(s: JsString, number: NumberOf, halt: Delivery -> bool)
    requires ':' as int !in s
    ensures DecodeTextPayload(s, number, halt) == [ParserError]
  {
    if s != [] { NoColon(s, [], number, halt); }
  }

  /** A text that announces more than it holds is an error. */
  lemma TruncatedIsAnError(n: nat, body: JsString, number: NumberOf, halt: Delivery -> bool)
    requires ReadsDecimals(number) && |body| < n
    ensures DecodeTextPayload(Decimal(n) + [':' as int] + body, number, halt) == [ParserError]
  {
    hide DecodePacket;
    ReadLengthDigits(Decimal(n), [COLON] + body, [], number, halt);
    assert [] + Decimal(n) == Decimal(n);
    assert Decimal(n) + [COLON] + body == Decimal(n) + ([COLON] + body);
    assert ([COLON] + body)[1..] == body;
    assert number(Decimal(n)) == Finite(n as real);
  }

  /** And so is what comes after the last packet, unless it begins another. */
  lemma RestIsAnError(p: Packet, rest: JsString, number: NumberOf)
    requires ReadsDecimals(number) && ':' as int !in rest && rest != []
    ensures DecodeTextPayload(EncodeTextPayload([p]) + rest, number, _ => false) ==
            [Deliver(Normal(p, false)), ParserError]
  {
    hide DecodePacket, EncodePacket;
    var s := PacketString(p);
    PacketStringNotEmpty(p);
    PacketRoundTrip(p, false, false);
    assert TextFrames([p]) == TextFrame(s) + [] == TextFrame(s);
    DecodeTextFrame(s, rest, number, _ => false);
    var text := [COLON] + s + rest;
    assert text[1..] == s + rest && text[1..1 + |s|] == s && text[1 + |s|..] == rest;
    assert number(Decimal(|s|)) == Finite(|s| as real);
    NoColon(rest, [], number, _ => false);
    BodyLengthOfDecimal(|s|, s + rest, number);
  }

  // ---------- the binary payload ----------

  /** The digits of the length, as bytes. */
  function LengthBytes(n: nat): (r: seq<Byte>)
    ensures |r| == |Decimal(n)| && forall i | 0 <= i < |r| :: r[i] < 10
  {
    var s := Decimal(n);
    seq(|s|, i requires 0 <= i < |s| => s[i] - ZERO)
  }

  /** The bytes an encoded packet occupies: a string is cut to its low bytes. */
  function Bytes(e: Encoded): (r: seq<Byte>) {
    match e
    case Buf(bytes) => bytes
    case Str(s) => seq(|s|, i requires 0 <= i < |s| => s[i] % 256)
  }

  function BinaryFrame(e: Encoded): seq<Byte> {
    [if e.Str? then 0 else 1] + LengthBytes(|Bytes(e)|) + [255] + Bytes(e)
  }

  function BinaryFrames(es: seq<Encoded>): seq<Byte> {
    if es == [] then [] else BinaryFrame(es[0]) + BinaryFrames(es[1..])
  }

  function EncodeEach(ps: seq<Packet>): (r: seq<Encoded>)
    ensures |r| == |ps|
  {
    seq(|ps|, i requires 0 <= i < |ps| => EncodePacket(ps[i], true, true))
  }

  function EncodeBinaryPayload(ps: seq<Packet>): seq<Byte> {
    BinaryFrames(EncodeEach(ps))
  }

  /** The size computed before the buffer is allocated. */
  function FrameSize(e: Encoded): nat {
    var n := |Bytes(e)|;
    |Decimal(n)| + n + 2
  }

  lemma {:induction false} BinaryFramesAppend(es: seq<Encoded>, e: Encoded)
    ensures BinaryFrames(es + [e]) == BinaryFrames(es) + BinaryFrame(e)
  {
    hide BinaryFrame;
    if es == [] {
      assert es + [e] == [e] && [e][1..] == [];
    } else {
      assert (es + [e])[1..] == es[1..] + [e];
      BinaryFramesAppend(es[1..], e);
    }
  }

  method Copy(target: array<Byte>, at: nat, source: seq<Byte>) returns (next: nat)
    requires at + |source| <= target.Length
    modifies target
    ensures next == at + |source|
    ensures target[..next] == old(target[..at]) + source
  {
    var s := 0;
    while s < |source|
      invariant s <= |source|
      invariant target[..at + s] == old(target[..at]) + source[..s]
    {
      target[at + s] := source[s];
      s := s + 1;
    }
    next := at + s;
  }

  method WriteFrame(buffer: array<Byte>, at: nat, e: Encoded) returns (next: nat)
    requires at + FrameSize(e) <= buffer.Length
    modifies buffer
    ensures next == at + FrameSize(e)
    ensures buffer[..next] == old(buffer[..at]) + BinaryFrame(e)
  {
    hide Bytes, Decimal;
    var bytes := Bytes(e);
    ghost var done := buffer[..at];
    buffer[at] := if e.Str? then 0 else 1;
    var i := at + 1;
    assert buffer[..i] == done + [if e.Str? then 0 else 1];
    i := Copy(buffer, i, LengthBytes(|bytes|));
    ghost var header := buffer[..i];
    buffer[i] := 255;
    i := i + 1;
    assert buffer[..i] == header + [255];
    next := Copy(buffer, i, bytes);
    assert buffer[..next] == done + BinaryFrame(e);
  }

  method TotalSize(es: seq<Encoded>) returns (total: nat)
    ensures total == |BinaryFrames(es)|
  {
    total := 0;
    var k := 0;
    while k < |es|
      invariant k <= |es| && total == |BinaryFrames(es[..k])|
    {
      hide Bytes, Decimal;
      total := total + FrameSize(es[k]);
      assert es[..k + 1] == es[..k] + [es[k]];
      BinaryFramesAppend(es[..k], es[k]);
      k := k + 1;
    }
    assert es[..k] == es;
  }

  /** Fills a buffer of the precomputed size, every byte of it. */
  method EncodePayloadAsArrayBuffer(ps: seq<Packet>) returns (buffer: array<Byte>)
    ensures fresh(buffer) && buffer[..] == EncodeBinaryPayload(ps)
  {
    hide EncodePacket, BinaryFrame, FrameSize;
    var es := EncodeEach(ps);
    var total := TotalSize(es);
    buffer := new Byte[total];
    var i, k := 0, 0;
    while k < |es|
      invariant k <= |es| && i == |BinaryFrames(es[..k])| <= total
      invariant buffer[..i] == BinaryFrames(es[..k])
    {
      FramesFit(es, k);
      FrameSizeIsLength(es[k]);
      i := WriteFrame(buffer, i, es[k]);
      assert es[..k + 1] == es[..k] + [es[k]];
      BinaryFramesAppend(es[..k], es[k]);
      k := k + 1;
    }
    assert es[..k] == es;
    assert buffer[..] == buffer[..i];
  }

  lemma FrameSizeIsLength(e: Encoded)
    ensures FrameSize(e) == |BinaryFrame(e)|
  {
    hide Bytes, Decimal;
  }

  lemma {:induction false} FramesFit(es: seq<Encoded>, k: nat)
    requires k < |es|
    ensures |BinaryFrames(es[..k])| + |BinaryFrame(es[k])| <= |BinaryFrames(es)|
    decreases k
  {
    hide BinaryFrame;
    if k > 0 {
      FramesFit(es[1..], k - 1);
      assert es[..k][1..] == es[1..][..k - 1];
    }
  }

  /** `"undefined"`, what a read past the end appends. */
  const UNDEFINED: JsString :=
    ['u' as int, 'n' as int, 'd' as int, 'e' as int, 'f' as int, 'i' as int, 'n' as int, 'e' as int, 'd' as int]

  const MAX_LENGTH_CHARS := 310

  /** Collects the characters of a length up to the byte 255, or gives up. */
  function ReadLength(o: seq<Byte>, p: nat, c: JsString): Option<JsString>
    decreases if |c| > MAX_LENGTH_CHARS then 0 else MAX_LENGTH_CHARS + 1 - |c|
  {
    if p < |o| && o[p] == 255 then Some(c)
    else if |c| > MAX_LENGTH_CHARS then None
    else ReadLength(o, p + 1, c + if p < |o| then Decimal(o[p]) else UNDEFINED)
  }

  function LeadingDigits(c: JsString): (n: nat)
    ensures n <= |c| && forall i | 0 <= i < n :: ZERO <= c[i] <= NINE
  {
    if c != [] && ZERO <= c[0] <= NINE then 1 + LeadingDigits(c[1..]) else 0
  }

  /** `parseInt(c)`, with 0 for not-a-number: the slice helper treats both alike. */
  function ParseInt(c: JsString): nat {
    Value(TextDigits(c[..LeadingDigits(c)]), 10)
  }

  /** A string frame as a string again: one unit a byte. */
  function FromBytes(isString: bool, bytes: seq<Byte>): Encoded {
    if isString then Str(bytes) else Buf(bytes)
  }

  /** Splits a binary payload into frames; none if a length is too long. */
  function SplitFrames(o: seq<Byte>): Option<seq<Encoded>>
    decreases |o|
  {
    if o == [] then Some([]) else
      match ReadLength(o, 1, [])
      case None => None
      case Some(c) =>
        var body := Slice(o, 2 + |c|, 0);
        var n := ParseInt(c);
        var rest := Slice(body, n, 0);
        match SplitFrames(rest)
        case None => None
        case Some(es) => Some([FromBytes(o[0] == 0, Slice(body, 0, n))] + es)
  }

  function DecodeEach(es: seq<Encoded>): (r: seq<Delivery>)
    ensures |r| == |es|
  {
    seq(|es|, i requires 0 <= i < |es| => DecodePacket(es[i], true))
  }

  function DecodeBinaryPayload(o: seq<Byte>): seq<Delivery> {
    match SplitFrames(o)
    case None => [ParserError]
    case Some(es) => DecodeEach(es)
  }

  method ReadLengthLoop(o: seq<Byte>) returns (r: Option<JsString>)
    ensures r == ReadLength(o, 1, [])
  {
    var msgLength: JsString := [];
    var p := 1;
    while !(p < |o| && o[p] == 255)
      invariant ReadLength(o, p, msgLength) == ReadLength(o, 1, [])
      decreases if |msgLength| > MAX_LENGTH_CHARS then 0 else MAX_LENGTH_CHARS + 1 - |msgLength|
    {
      hide Decimal;
      if |msgLength| > MAX_LENGTH_CHARS { return None; }
      msgLength := msgLength + if p < |o| then Decimal(o[p]) else UNDEFINED;
      p := p + 1;
    }
    return Some(msgLength);
  }

  lemma NoFrame()
    ensures SplitFrames([]) == Some([])
  {
  }

  lemma SplitFramesStep(o: seq<Byte>)
    requires o != []
    ensures match ReadLength(o, 1, [])
            case None => SplitFrames(o) == None
            case Some(c) =>
              var body, n := Slice(o, 2 + |c|, 0), ParseInt(c);
              match SplitFrames(Slice(body, n, 0))
              case None => SplitFrames(o) == None
              case Some(es) => SplitFrames(o) == Some([FromBytes(o[0] == 0, Slice(body, 0, n))] + es)
  {
    hide ReadLength, Slice, ParseInt;
  }

  method DecodePayloadAsBinary(data: seq<Byte>) returns (r: seq<Delivery>)
    ensures r == DecodeBinaryPayload(data)
  {
    hide ParseInt, Slice, DecodePacket, ReadLength, SplitFrames;
    var bufferTail := data;
    NoFrame();
    var buffers: seq<Encoded> := [];
    while |bufferTail| > 0
      invariant SplitFrames(bufferTail).Some? <==> SplitFrames(data).Some?
      invariant SplitFrames(data).Some? ==> SplitFrames(data).value == buffers + SplitFrames(bufferTail).value
      decreases |bufferTail|
    {
      SplitFramesStep(bufferTail);
      var isString := bufferTail[0] == 0;
      var msgLength := ReadLengthLoop(bufferTail);
      if msgLength.None? { return [ParserError]; }
      bufferTail := Slice(bufferTail, 2 + |msgLength.value|, 0);
      var n := ParseInt(msgLength.value);
      buffers := buffers + [FromBytes(isString, Slice(bufferTail, 0, n))];
      bufferTail := Slice(bufferTail, n, 0);
    }
    assert buffers + [] == buffers;
    r := DecodeEach(buffers);
  }

  // ---------- the binary round trip ----------

  lemma SmallDecimal(d: nat)
    requires d < 10
    ensures Decimal(d) == [ZERO + d]
  {
    assert Numeral(d, 10) == [d];
  }

  lemma {:induction false} ReadLengthBytes(o: seq<Byte>, p: nat, s: JsString, k: nat)
    requires k <= |s| && |s| <= 311
    requires forall i | 0 <= i < |s| :: ZERO <= s[i] <= NINE
    requires p + |s| - k < |o| && o[p + |s| - k] == 255
    requires forall i | k <= i < |s| :: o[p + i - k] == s[i] - ZERO
    ensures ReadLength(o, p, s[..k]) == Some(s)
    decreases |s| - k
  {
    if k == |s| {
      assert s[..k] == s;
    } else {
      assert o[p + k - k] == s[k] - ZERO;
      SmallDecimal(o[p]);
      assert s[..k] + [s[k]] == s[..k + 1];
      ReadLengthBytes(o, p + 1, s, k + 1);
    }
  }

  lemma {:induction false} AllLeadingDigits(c: JsString)
    requires forall i | 0 <= i < |c| :: ZERO <= c[i] <= NINE
    ensures LeadingDigits(c) == |c|
  {
    if c != [] { AllLeadingDigits(c[1..]); }
  }

  lemma ParseIntOfDecimal(n: nat)
    ensures ParseInt(Decimal(n)) == n
  {
    AllLeadingDigits(Decimal(n));
    assert Decimal(n)[..|Decimal(n)|] == Decimal(n);
    TextDigitsOfDecimal(n);
  }

  /** The frame is read back, and only it. Its length is never zero, so the
      zero-end default of the slice helper is not used for the data. */
  lemma SplitFrame(e: Encoded, rest: seq<Byte>)
    requires Bytes(e) != [] && |Decimal(|Bytes(e)|)| <= 311
    ensures var o := BinaryFrame(e) + rest;
            var c := Decimal(|Bytes(e)|);
            && ReadLength(o, 1, []) == Some(c) && ParseInt(c) == |Bytes(e)| > 0
            && Slice(o, 2 + |c|, 0) == Bytes(e) + rest
            && Slice(Bytes(e) + rest, 0, |Bytes(e)|) == Bytes(e)
            && Slice(Bytes(e) + rest, |Bytes(e)|, 0) == rest
            && o[0] == if e.Str? then 0 else 1
  {
    hide Bytes, Decimal;
    var bytes := Bytes(e);
    var c := Decimal(|bytes|);
    var o := BinaryFrame(e) + rest;
    assert o == [o[0]] + LengthBytes(|bytes|) + [255] + (bytes + rest);
    assert c[..0] == [];
    ReadLengthBytes(o, 1, c, 0);
    ParseIntOfDecimal(|bytes|);
    assert o[2 + |c|..] == bytes + rest;
    assert (bytes + rest)[..|bytes|] == bytes && (bytes + rest)[|bytes|..] == rest;
  }

  ghost predicate Framable(e: Encoded) {
    && Bytes(e) != [] && |Decimal(|Bytes(e)|)| <= 311
    && (e.Str? ==> Bytes(e) == e.s)
  }

  lemma {:induction false} SplitFramesRoundTrip(es: seq<Encoded>)
    requires forall e | e in es :: Framable(e)
    ensures SplitFrames(BinaryFrames(es)) == Some(es)
  {
    hide Decimal, ParseInt, Slice, BinaryFrame, Bytes;
    if es != [] {
      assert es == [es[0]] + es[1..] && es[0] in es;
      SplitFramesRoundTrip(es[1..]);
      SplitFrame(es[0], BinaryFrames(es[1..]));
      BinaryFrameNotEmpty(es[0]);
      EncodedOfBytes(es[0]);
    }
  }

  lemma BinaryFrameNotEmpty(e: Encoded)
    ensures BinaryFrame(e) != []
  {
  }

  lemma EncodedOfBytes(e: Encoded)
    requires Framable(e)
    ensures FromBytes(e.Str?, Bytes(e)) == e
  {
  }

  lemma BytesOfEncodedPacket(p: Packet)
    ensures var e := EncodePacket(p, true, true);
            Bytes(e) != [] && (e.Str? ==> Bytes(e) == e.s)
  {
    if !p.data.Binary? {
      var s := [ZERO + p.code] + Utf8Text(TextOf(p.data));
      assert forall i | 0 <= i < |s| :: s[i] % 256 == s[i];
    }
  }

  /** The binary payload delivers exactly the packets, in order, for any mix of
      text and binary packets. A length of more than 311 digits, beyond any
      real buffer, is the only thing the decoder gives up on. */
  lemma BinaryPayloadRoundTrip(ps: seq<Packet>)
    requires forall p | p in ps :: |Decimal(|Bytes(EncodePacket(p, true, true))|)| <= 311
    ensures DecodeBinaryPayload(EncodeBinaryPayload(ps)) == Delivered(ps, true, _ => false)
  {
    hide EncodePacket, DecodePacket, Bytes, Decimal, BinaryFrames, Normal;
    var es := EncodeEach(ps);
    forall e | e in es ensures Framable(e) {
      var i :| 0 <= i < |es| && es[i] == e;
      assert ps[i] in ps;
      BytesOfEncodedPacket(ps[i]);
    }
    SplitFramesRoundTrip(es);
    DecodeEachRoundTrip(ps);
  }

  lemma {:induction false} DecodeEachRoundTrip(ps: seq<Packet>)
    ensures DecodeEach(EncodeEach(ps)) == Delivered(ps, true, _ => false)
  {
    hide EncodePacket, DecodePacket, Normal;
    if ps != [] {
      DecodeEachRoundTrip(ps[1..]);
      PacketRoundTrip(ps[0], true, true);
      assert EncodeEach(ps) == [EncodePacket(ps[0], true, true)] + EncodeEach(ps[1..]);
      assert DecodeEach(EncodeEach(ps)) ==
             [DecodePacket(EncodePacket(ps[0], true, true), true)] + DecodeEach(EncodeEach(ps[1..]));
    }
  }

  /** And one digit more is refused, whatever follows. */
  lemma TooLongLengthIsRefused(flag: Byte, digits: seq<Byte>, rest: seq<Byte>)
    requires |digits| == 312 && forall i | 0 <= i < |digits| :: digits[i] < 10
    ensures DecodeBinaryPayload([flag] + digits + rest) == [ParserError]
  {
    var o := [flag] + digits + rest;
    assert forall i | 0 <= i < 312 :: o[1 + i] == digits[i];
    ReadLengthGivesUp(o, 1, []);
  }

  lemma {:induction false} ReadLengthGivesUp(o: seq<Byte>, p: nat, c: JsString)
    requires |c| <= 311 && p == 1 + |c| && |o| >= 313 && forall i | 1 <= i < 313 :: o[i] < 10
    ensures ReadLength(o, p, c).None?
    decreases 311 - |c|
  {
    hide Decimal;
    if |c| <= 310 {
      SmallDecimal(o[p]);
      ReadLengthGivesUp(o, p + 1, c + Decimal(o[p]));
    }
  }

  /** What the zero-end default would do: a frame of length zero takes all that
      follows as its data, which is then read a second time as frames. */
  lemma ZeroLengthFrame(flag: Byte, rest: seq<Byte>)
    requires SplitFrames(rest).Some?
    ensures SplitFrames([flag, 0, 255] + rest) == Some([FromBytes(flag == 0, rest)] + SplitFrames(rest).value)
  {
    hide Decimal, ParseInt, ReadLength, Slice;
    var o := [flag, 0, 255] + rest;
    var c: JsString := [ZERO];
    assert c[..0] == [];
    ReadLengthBytes(o, 1, c, 0);
    SmallDecimal(0);
    ParseIntOfDecimal(0);
    assert Slice(o, 2 + |c|, 0) == rest;
    assert Slice(rest, 0, 0) == rest;
  }
}

/** The packets of the messaging protocol: their text form, the frames of a
    packet with buffers, and the decoder (module 7). */
module SocketPacket {
  import opened Js
  import opened Numerals
  import opened BinaryTree

  /** CONNECT, DISCONNECT, EVENT, ACK, ERROR, BINARY_EVENT, BINARY_ACK */
  type Type = x: int | 0 <= x < 7

  const CONNECT: Type := 0
  const EVENT: Type := 2
  const ACK: Type := 3
  const ERROR: Type := 4
  const BINARY_EVENT: Type := 5
  const BINARY_ACK: Type := 6

  datatype Packet = Packet(
    ptype: Type,
    nsp: Option<JsString>,
    id: Option<JsNumber>,
    data: Option<Value>,
    attachments: Option<JsNumber>)

  /** The functions of the host that the codec calls: `JSON.stringify`,
      `JSON.parse`, `Number(s)`, and a number as text. */
  datatype Host = Host(
    stringify: Value -> JsString,
    parse: JsString -> Option<Value>,
    number: JsString -> JsNumber,
    text: JsNumber -> JsString)

  /** What is assumed of the host: decimal numerals are printed and read
      back, and an opening bracket is no number. */
  ghost predicate HandlesNumerals(host: Host) {
    && (forall n: nat :: host.text(Finite(n as real)) == Decimal(n))
    && (forall n: nat :: host.number(Decimal(n)) == Finite(n as real))
    && host.number([LBRACKET]) == NaN
  }

  predicate IsBinary(t: Type) { t == BINARY_EVENT || t == BINARY_ACK }

  // ---------- encoding ----------

  function NspPart(p: Packet): JsString {
    if p.nsp.Some? && p.nsp.value != [] && p.nsp.value != [SLASH] then p.nsp.value + [COMMA] else []
  }

  function DataPart(p: Packet, host: Host): JsString {
    if p.data.Some? && p.data.value != Null && p.data.value != Undefined then host.stringify(p.data.value) else []
  }

  function IdPart(p: Packet, host: Host): JsString {
    if p.id.Some? then host.text(p.id.value) else []
  }

  function EncodeAsString(p: Packet, host: Host): JsString
    requires IsBinary(p.ptype) ==> p.attachments.Some?
  {
    [ZERO + p.ptype] + (if IsBinary(p.ptype) then host.text(p.attachments.value) + [DASH] else [])
    + NspPart(p) + IdPart(p, host) + DataPart(p, host)
  }

  datatype Frame = TextFrame(s: JsString) | BufferFrame(buffer: Buffer)

  /** An EVENT or ACK that carries a buffer becomes its binary kind. */
  function Retype(p: Packet): Packet {
    if (p.ptype == EVENT || p.ptype == ACK) && p.data.Some? && HasBinary(p.data.value) then
      p.(ptype := if p.ptype == EVENT then BINARY_EVENT else BINARY_ACK)
    else p
  }

  function DeconstructData(p: Packet): (Option<Value>, seq<Buffer>) {
    match p.data
    case None => (None, [])
    case Some(v) => var (w, buffers) := Deconstruct(v, []); (Some(w), buffers)
  }

  /** The packet whose text is sent. */
  function WirePacket(p: Packet): Packet {
    var t := Retype(p);
    if IsBinary(t.ptype) then
      t.(data := DeconstructData(t).0, attachments := Some(Finite(|DeconstructData(t).1| as real)))
    else t
  }

  function BufferFrames(buffers: seq<Buffer>): (r: seq<Frame>)
    ensures |r| == |buffers|
  {
    seq(|buffers|, i requires 0 <= i < |buffers| => BufferFrame(buffers[i]))
  }

  function SentBuffers(p: Packet): seq<Buffer> {
    if IsBinary(Retype(p).ptype) then DeconstructData(p).1 else []
  }

  function Encode(p: Packet, host: Host): seq<Frame> {
    [TextFrame(EncodeAsString(WirePacket(p), host))] + BufferFrames(SentBuffers(p))
  }

  // ---------- decoding ----------

  const PARSER_ERROR: JsString :=
    ['p' as int, 'a' as int, 'r' as int, 's' as int, 'e' as int, 'r' as int, ' ' as int,
     'e' as int, 'r' as int, 'r' as int, 'o' as int, 'r' as int]

  const ERROR_PACKET := Packet(ERROR, None, None, Some(String(PARSER_ERROR)), None)

  /** The packet type of the first character; `Number("")` is 0. */
  function TypeOf(s: JsString, host: Host): Option<Type> {
    if s == [] then Some(CONNECT) else
      match host.number([s[0]])
      case Finite(r) => if r.Floor as real == r && 0 <= r.Floor < 7 then Some(r.Floor) else None
      case _ => None
  }

  predicate IsNumeric(s: JsString, host: Host) { host.number(s) != NaN }

  function NumericPrefix(s: JsString, host: Host): (n: nat)
    ensures n <= |s| && (n < |s| ==> !IsNumeric([s[n]], host))
  {
    if s == [] || !IsNumeric([s[0]], host) then 0 else 1 + NumericPrefix(s[1..], host)
  }

  function Drop(s: JsString, n: nat): JsString {
    if n <= |s| then s[n..] else []
  }

  /** The attachment count and what follows its dash; it throws without one. */
  function SplitAttachments(s: JsString, host: Host): Result<(JsNumber, JsString)> {
    var n := IndexOf(s, DASH);
    if n == |s| || !IsNumeric(s[..n], host) then Thrown
    else Ok((host.number(s[..n]), s[n + 1..]))
  }

  function SplitNsp(s: JsString): (JsString, JsString) {
    if s != [] && s[0] == SLASH then
      var n := IndexOf(s, COMMA);
      (s[..n], Drop(s, n + 1))
    else ([SLASH], s)
  }

  function SplitId(s: JsString, host: Host): (Option<JsNumber>, JsString) {
    if s != [] && IsNumeric([s[0]], host) then
      var n := NumericPrefix(s, host);
      (Some(host.number(s[..n])), s[n..])
    else (None, s)
  }

  function ParseData(p: Packet, s: JsString, host: Host): Packet {
    if s == [] then p else
      match host.parse(s)
      case None => ERROR_PACKET
      case Some(v) => p.(data := Some(v))
  }

  /** What follows the type and the attachments. */
  function DecodeRest(ptype: Type, attachments: Option<JsNumber>, s: JsString, host: Host): Packet {
    var (nsp, afterNsp) := SplitNsp(s);
    var (id, afterId) := SplitId(afterNsp, host);
    ParseData(Packet(ptype, Some(nsp), id, None, attachments), afterId, host)
  }

  function DecodeString(s: JsString, host: Host): Result<Packet> {
    match TypeOf(s, host)
    case None => Ok(ERROR_PACKET)
    case Some(t) =>
      if IsBinary(t) then
        match SplitAttachments(s[1..], host)
        case Thrown => Thrown
        case Ok((n, rest)) => Ok(DecodeRest(t, Some(n), rest, host))
      else Ok(DecodeRest(t, None, Drop(s, 1), host))
  }

  /** The index of the first `c` from `start` on, or the length. */
  method ScanTo(t: JsString, start: nat, c: Unit) returns (n: nat)
    requires start <= |t|
    ensures start <= n <= |t| && n - start == IndexOf(t[start..], c)
  {
    n := start;
    while n < |t| && t[n] != c
      invariant start <= n <= |t|
      invariant n - start + IndexOf(t[n..], c) == IndexOf(t[start..], c)
    {
      assert t[n..][1..] == t[n + 1..];
      n := n + 1;
    }
  }

  /** The namespace at `start`, and the index just past it and its comma. */
  method ScanNsp(t: JsString, start: nat) returns (nsp: JsString, next: nat)
    ensures SplitNsp(Drop(t, start)) == (nsp, Drop(t, next))
  {
    if start < |t| && t[start] == SLASH {
      var m := ScanTo(t, start, COMMA);
      assert t[start..][..m - start] == t[start..m];
      assert Drop(t[start..], m + 1 - start) == Drop(t, m + 1);
      return t[start..m], m + 1;
    }
    return [SLASH], start;
  }

  method ScanId(t: JsString, start: nat, host: Host) returns (id: Option<JsNumber>, next: nat)
    ensures SplitId(Drop(t, start), host) == (id, Drop(t, next))
  {
    if start < |t| && IsNumeric([t[start]], host) {
      var m := start;
      while m < |t| && IsNumeric([t[m]], host)
        invariant start <= m <= |t|
        invariant m - start + NumericPrefix(t[m..], host) == NumericPrefix(t[start..], host)
      {
        assert t[m..][1..] == t[m + 1..];
        m := m + 1;
      }
      assert t[start..][..m - start] == t[start..m] && t[start..][m - start..] == t[m..];
      return Some(host.number(t[start..m])), m;
    }
    return None, start;
  }

  /** The scanner, as it walks an index over the text. */
  method DecodeStringLoop(t: JsString, host: Host) returns (r: Result<Packet>)
    ensures r == DecodeString(t, host)
  {
    hide SplitNsp, SplitId, ParseData, IsNumeric;
    var n := 1;
    var ptype := TypeOf(t, host);
    if ptype.None? { return Ok(ERROR_PACKET); }
    var attachments := None;
    if IsBinary(ptype.value) {
      n := ScanTo(t, 1, DASH);
      assert t[1..][..n - 1] == t[1..n];
      if n == |t| || !IsNumeric(t[1..n], host) { return Thrown; }
      attachments := Some(host.number(t[1..n]));
      assert t[1..][n - 1 + 1..] == t[n + 1..];
      n := n + 1;
    }
    var nsp, afterNsp := ScanNsp(t, n);
    var id, afterId := ScanId(t, afterNsp, host);
    r := Ok(ParseData(Packet(ptype.value, Some(nsp), id, None, attachments), Drop(t, afterId), host));
  }

  // ---------- the decoder ----------

  datatype Reconstruction = Reconstruction(packet: Packet, buffers: seq<Buffer>)

  datatype DecoderState = DecoderState(reconstructor: Option<Reconstruction>, emitted: seq<Packet>)

  function Emit(st: DecoderState, p: Packet): DecoderState {
    st.(emitted := st.emitted + [p])
  }

  function ReconstructPacket(p: Packet, buffers: seq<Buffer>): Packet {
    p.(data := match p.data case None => None case Some(v) => Some(Reconstruct(v, buffers)),
       attachments := None)
  }

  function Add(st: DecoderState, frame: Frame, host: Host): Result<DecoderState> {
    match frame
    case TextFrame(s) =>
      (match DecodeString(s, host)
       case Thrown => Thrown
       case Ok(p) =>
         if IsBinary(p.ptype) then
           var st' := st.(reconstructor := Some(Reconstruction(p, [])));
           Ok(if p.attachments == Some(Finite(0.0)) then Emit(st', p) else st')
         else Ok(Emit(st, p)))
    case BufferFrame(b) =>
      (match st.reconstructor
       case None => Thrown
       case Some(rec) =>
         var buffers := rec.buffers + [b];
         if rec.packet.attachments == Some(Finite(|buffers| as real)) then
           Ok(Emit(st.(reconstructor := None), ReconstructPacket(rec.packet, buffers)))
         else Ok(st.(reconstructor := Some(Reconstruction(rec.packet, buffers)))))
  }

  function AddAll(st: DecoderState, frames: seq<Frame>, host: Host): Result<DecoderState>
    decreases |frames|
  {
    if frames == [] then Ok(st) else
      match Add(st, frames[0], host)
      case Thrown => Thrown
      case Ok(st') => AddAll(st', frames[1..], host)
  }

  /** The decoder object. `emitted` stands for the listeners of "decoded". */
  class Decoder {
    var reconstructor: Option<Reconstruction>
    ghost var emitted: seq<Packet>

    ghost function View(): DecoderState
      reads this
    {
      DecoderState(reconstructor, emitted)
    }

    constructor ()
      ensures View() == DecoderState(None, [])
    {
      reconstructor, emitted := None, [];
    }

    /** Throws, and changes nothing, exactly when the specification does. */
    method AddFrame(frame: Frame, host: Host) returns (thrown: bool)
      modifies this
      ensures thrown <==> Add(old(View()), frame, host).Thrown?
      ensures View() == if thrown then old(View()) else Add(old(View()), frame, host).value
    {
      match frame
      case TextFrame(s) =>
        var decoded := DecodeStringLoop(s, host);
        if decoded.Thrown? { return true; }
        var p := decoded.value;
        if IsBinary(p.ptype) {
          reconstructor := Some(Reconstruction(p, []));
          if p.attachments == Some(Finite(0.0)) { emitted := emitted + [p]; }
        } else {
          emitted := emitted + [p];
        }
        return false;
      case BufferFrame(b) =>
        if reconstructor.None? { return true; }
        var rec := reconstructor.value;
        rec := rec.(buffers := rec.buffers + [b]);
        reconstructor := Some(rec);
        if rec.packet.attachments == Some(Finite(|rec.buffers| as real)) {
          reconstructor := None;
          emitted := emitted + [ReconstructPacket(rec.packet, rec.buffers)];
        }
        return false;
    }

    /** All frames in order, or those up to the first one it throws at. */
    method AddFrames(frames: seq<Frame>, host: Host) returns (thrown: bool)
      modifies this
      ensures thrown <==> AddAll(old(View()), frames, host).Thrown?
      ensures !thrown ==> View() == AddAll(old(View()), frames, host).value
    {
      hide Add;
      var i := 0;
      assert frames[0..] == frames;
      while i < |frames|
        invariant i <= |frames| && AddAll(old(View()), frames, host) == AddAll(View(), frames[i..], host)
      {
        assert frames[i..][1..] == frames[i + 1..];
        thrown := AddFrame(frames[i], host);
        if thrown { return; }
        i := i + 1;
      }
      return false;
    }
  }

  // ---------- the type on the wire ----------

  /** Which type is sent and expected: an event (2) or an acknowledgement (3) that
      holds a buffer as the binary event (5) or acknowledgement (6), every other
      packet as what it is. */
  lemma WireType(p: Packet, host: Host)
    ensures var t := if (p.ptype == 2 || p.ptype == 3) && p.data.Some? && HasBinary(p.data.value) then p.ptype + 3
                     else p.ptype;
            && Encode(p, host)[0].TextFrame? && Encode(p, host)[0].s != []
            && Encode(p, host)[0].s[0] == '0' as int + t
            && Expected(p).ptype == t
            && Expected(p).nsp == p.nsp && Expected(p).id == p.id && Expected(p).data == p.data
  {
    hide HasBinary, Deconstruct;
  }

  /** The whole text of a packet with data: the digit of the type; for a binary one
      the number of buffers and a dash; a namespace other than the root and a comma;
      the id; and the data, of a binary packet without its buffers, which follow it
      one by one. */
  lemma WireFormat(p: Packet, host: Host)
    requires HandlesNumerals(host) && Sendable(p, host) && p.data.Some?
    ensures var v := p.data.value;
            var t := if (p.ptype == 2 || p.ptype == 3) && HasBinary(v) then p.ptype + 3 else p.ptype;
            var (text, buffers) := if t == 5 || t == 6 then Deconstruct(v, []) else (v, []);
            Encode(p, host) ==
            [TextFrame(['0' as int + t] + (if t == 5 || t == 6 then Decimal(|buffers|) + ['-' as int] else [])
                       + (if p.nsp.value == ['/' as int] then [] else p.nsp.value + [',' as int])
                       + (if p.id.None? then [] else host.text(p.id.value)) + host.stringify(text))]
            + seq(|buffers|, i requires 0 <= i < |buffers| => BufferFrame(buffers[i]))
            && !((p.ptype == 2 || p.ptype == 3) && HasBinary(text))
  {
    hide HasBinary, Deconstruct;
    DeconstructLeavesNoBuffer(p.data.value, []);
    WireDataIsArray(p);
  }

  /** A namespace that ends the text needs no comma. */
  lemma NamespaceAlone(t: Type, nsp: JsString, host: Host)
    requires HandlesNumerals(host) && t != 5 && t != 6
    requires nsp != [] && nsp[0] == '/' as int && ',' as int !in nsp
    ensures DecodeString(['0' as int + t] + nsp, host) == Ok(Packet(t, Some(nsp), None, None, None))
  {
    var s := ['0' as int + t] + nsp;
    assert Numeral(t, 10) == [t];
    assert Decimal(t) == [s[0]];
    assert host.number(Decimal(t)) == Finite(t as real);
    assert Drop(s, 1) == nsp && nsp[..|nsp|] == nsp;
    assert IndexOf(nsp, COMMA) == |nsp|;
  }

  /** What is no packet: a text with another type, or with data that is no JSON, is
      an error packet; one that announces buffers without saying how many throws;
      and the empty text is a CONNECT. */
  lemma DecodeErrors(s: JsString, host: Host)
    ensures var error := Packet(4, None, None, Some(String(PARSER_ERROR)), None);
            && PARSER_ERROR == Ascii("parser error")
            && (s != [] && TypeOf(s, host).None? ==> DecodeString(s, host) == Ok(error))
            && (s != [] && TypeOf(s, host) in {Some(5), Some(6)} && '-' as int !in s[1..] ==>
                  DecodeString(s, host) == Thrown)
            && DecodeString([], host) == Ok(Packet(0, Some(['/' as int]), None, None, None))
            && (s != [] && host.parse(s).None? ==> forall p :: ParseData(p, s, host) == error)
  {
  }

  // ---------- a packet survives the wire ----------

  /** The JSON text of the data is read back. */
  ghost predicate JsonFaithful(v: Value, host: Host) {
    && host.parse(host.stringify(v)) == Some(v)
    && host.stringify(v) != [] && host.stringify(v)[0] == LBRACKET
  }

  ghost predicate IsNatural(n: JsNumber) {
    n.Finite? && n.r >= 0.0 && n.r.Floor as real == n.r
  }

  /** A packet as the sockets of the client make them: a namespace that starts
      with a slash and has no comma, a counter as id, and an array as data. */
  ghost predicate Sendable(p: Packet, host: Host) {
    && p.nsp.Some? && p.nsp.value != [] && p.nsp.value[0] == SLASH && COMMA !in p.nsp.value
    && (p.id.Some? ==> IsNatural(p.id.value))
    && (p.data.Some? ==> p.data.value.Array? && JsonFaithful(WirePacket(p).data.value, host))
    && p.attachments.None?
  }

  /** What the receiver should see: the packet itself, an EVENT or ACK with
      buffers as its binary kind. A packet that was sent as binary without
      having a buffer keeps its attachment count of zero. */
  function Expected(p: Packet): Packet {
    var t := Retype(p);
    if IsBinary(t.ptype) && SentBuffers(p) == [] then t.(attachments := Some(Finite(0.0))) else t
  }

  lemma {:induction false} NumericPrefixOfDigits(ds: JsString, rest: JsString, host: Host)
    requires HandlesNumerals(host)
    requires forall i | 0 <= i < |ds| :: ZERO <= ds[i] <= NINE
    requires rest == [] || !IsNumeric([rest[0]], host)
    ensures NumericPrefix(ds + rest, host) == |ds|
  {
    if ds == [] {
      assert ds + rest == rest;
    } else {
      DigitIsNumeric(ds[0], host);
      assert (ds + rest)[1..] == ds[1..] + rest;
      NumericPrefixOfDigits(ds[1..], rest, host);
    }
  }

  lemma DigitIsNumeric(c: Unit, host: Host)
    requires HandlesNumerals(host) && ZERO <= c <= NINE
    ensures host.number([c]) == Finite((c - ZERO) as real)
  {
    assert Numeral(c - ZERO, 10) == [c - ZERO];
    assert Decimal(c - ZERO) == [c];
  }

  lemma SplitAttachmentsOfPrinted(n: nat, rest: JsString, host: Host)
    requires HandlesNumerals(host)
    ensures SplitAttachments(host.text(Finite(n as real)) + [DASH] + rest, host) == Ok((Finite(n as real), rest))
  {
    hide Decimal;
    var ds := Decimal(n);
    var s := ds + [DASH] + rest;
    IndexOfFirst(ds, DASH, rest);
    assert s[..|ds|] == ds && s[|ds| + 1..] == rest;
    assert host.number(ds) == Finite(n as real);
  }

  lemma SplitNspOfPrinted(p: Packet, rest: JsString)
    requires p.nsp.Some? && p.nsp.value != [] && p.nsp.value[0] == SLASH && COMMA !in p.nsp.value
    requires rest == [] || rest[0] != SLASH
    ensures SplitNsp(NspPart(p) + rest) == (p.nsp.value, rest)
  {
    var nsp := p.nsp.value;
    if nsp == [SLASH] {
      assert NspPart(p) + rest == rest;
    } else {
      IndexOfFirst(nsp, COMMA, rest);
      var s := nsp + [COMMA] + rest;
      assert s[..|nsp|] == nsp && s[|nsp| + 1..] == rest;
    }
  }

  lemma SplitIdOfPrinted(p: Packet, rest: JsString, host: Host)
    requires HandlesNumerals(host)
    requires p.id.Some? ==> IsNatural(p.id.value)
    requires rest == [] || !IsNumeric([rest[0]], host)
    ensures SplitId(IdPart(p, host) + rest, host) == (p.id, rest)
    ensures IdPart(p, host) != [] ==> ZERO <= IdPart(p, host)[0] <= NINE
  {
    hide Decimal;
    if p.id.Some? {
      var k: nat := p.id.value.r.Floor;
      var ds := Decimal(k);
      assert IdPart(p, host) == ds;
      NumericPrefixOfDigits(ds, rest, host);
      DigitIsNumeric(ds[0], host);
      assert (ds + rest)[..|ds|] == ds && (ds + rest)[|ds|..] == rest;
      assert host.number(ds) == Finite(k as real);
    } else {
      assert IdPart(p, host) + rest == rest;
    }
  }

  /** What is read back from the text of the wire packet: everything but a
      missing array, which is not printed. */
  lemma DecodeRestOfPrinted(p: Packet, host: Host)
    requires HandlesNumerals(host) && Sendable(p, host)
    ensures var w := WirePacket(p);
            DecodeRest(w.ptype, w.attachments, NspPart(w) + IdPart(w, host) + DataPart(w, host), host) == w
  {
    hide SplitNsp, SplitId, NspPart, IdPart, Deconstruct, HasBinary;
    var w := WirePacket(p);
    var data := DataPart(w, host);
    WireDataIsArray(p);
    assert data == [] || data[0] == LBRACKET;
    SplitIdOfPrinted(w, data, host);
    var tail := IdPart(w, host) + data;
    assert tail == [] || tail[0] != SLASH;
    SplitNspOfPrinted(w, tail);
    assert NspPart(w) + IdPart(w, host) + data == NspPart(w) + tail;
  }

  lemma WireDataIsArray(p: Packet)
    requires p.data.Some? ==> p.data.value.Array?
    ensures WirePacket(p).data.Some? <==> p.data.Some?
    ensures p.data.Some? ==> WirePacket(p).data.value.Array?
  {
  }

  lemma DecodeStringOfPrinted(p: Packet, host: Host)
    requires HandlesNumerals(host) && Sendable(p, host)
    ensures DecodeString(EncodeAsString(WirePacket(p), host), host) == Ok(WirePacket(p))
  {
    hide NspPart, IdPart, DataPart, DecodeRest, Decimal, SplitAttachments, WirePacket;
    WireAttachments(p);
    var w := WirePacket(p);
    var rest := NspPart(w) + IdPart(w, host) + DataPart(w, host);
    var s := EncodeAsString(w, host);
    DigitIsNumeric(ZERO + w.ptype, host);
    DecodeRestOfPrinted(p, host);
    if IsBinary(w.ptype) {
      SplitAttachmentsOfPrinted(|SentBuffers(p)|, rest, host);
      assert s[1..] == host.text(w.attachments.value) + [DASH] + rest;
    } else {
      assert s[1..] == rest;
    }
  }

  lemma WireAttachments(p: Packet)
    requires p.attachments.None?
    ensures var w := WirePacket(p);
            if IsBinary(w.ptype) then w.attachments == Some(Finite(|SentBuffers(p)| as real))
            else w.attachments.None? && SentBuffers(p) == []
    ensures WirePacket(p).ptype == Retype(p).ptype
  {
  }

  /** While buffers are missing the decoder only collects them; the last one
      completes the packet. */
  lemma {:induction false} CollectBuffers(st: DecoderState, rec: Reconstruction, missing: seq<Buffer>, host: Host)
    requires st.reconstructor == Some(rec) && missing != []
    requires rec.packet.attachments == Some(Finite((|rec.buffers| + |missing|) as real))
    ensures AddAll(st, BufferFrames(missing), host) ==
            Ok(DecoderState(None, st.emitted + [ReconstructPacket(rec.packet, rec.buffers + missing)]))
    decreases |missing|
  {
    hide ReconstructPacket;
    var frames := BufferFrames(missing);
    assert frames[1..] == BufferFrames(missing[1..]);
    var buffers := rec.buffers + [missing[0]];
    assert buffers + missing[1..] == rec.buffers + missing;
    if |missing| > 1 {
      var rec' := Reconstruction(rec.packet, buffers);
      assert rec.packet.attachments != Some(Finite(|buffers| as real));
      CollectBuffers(st.(reconstructor := Some(rec')), rec', missing[1..], host);
    } else {
      assert missing == [missing[0]] && frames[1..] == [];
    }
  }

  /** The data of a sendable packet comes back exactly when none of its objects
      passes for a placeholder. */
  lemma ReconstructWireData(p: Packet)
    requires p.data.Some? ==> p.data.value.Array?
    requires p.attachments.None? && IsBinary(Retype(p).ptype)
    ensures ReconstructPacket(WirePacket(p), SentBuffers(p)) == Retype(p) <==>
            (p.data.Some? ==> PlaceholderFree(p.data.value))
  {
    hide Deconstruct, Reconstruct, HasBinary, PlaceholderFree;
    if p.data.Some? {
      ReconstructOfDeconstruct(p.data.value, [], SentBuffers(p));
    }
  }

  /** No buffer was taken out: the wire data is the data. */
  lemma NothingDeconstructed(p: Packet)
    requires IsBinary(Retype(p).ptype) && SentBuffers(p) == []
    ensures DeconstructData(p).0 == p.data
  {
    if p.data.Some? {
      DeconstructKeepsBuffers(p.data.value, []);
      DeconstructWithoutBuffers(p.data.value, []);
    }
  }

  lemma {:induction false} DeconstructWithoutBuffers(v: Value, buffers: seq<Buffer>)
    requires !HasBinary(v)
    ensures Deconstruct(v, buffers) == (v, buffers)
    decreases v, 0
  {
    match v
    case Array(items) => DeconstructItemsWithoutBuffers(items, buffers);
    case Object(fields) => DeconstructFieldsWithoutBuffers(fields, buffers);
    case _ =>
  }

  lemma {:induction false} DeconstructItemsWithoutBuffers(items: seq<Value>, buffers: seq<Buffer>)
    requires forall i | 0 <= i < |items| :: !HasBinary(items[i])
    ensures DeconstructItems(items, buffers) == (items, buffers)
    decreases items, 1
  {
    if items != [] {
      assert items == [items[0]] + items[1..];
      DeconstructWithoutBuffers(items[0], buffers);
      DeconstructItemsWithoutBuffers(items[1..], buffers);
    }
  }

  lemma {:induction false} DeconstructFieldsWithoutBuffers(fields: seq<Field>, buffers: seq<Buffer>)
    requires forall i | 0 <= i < |fields| :: !HasBinary(fields[i].value)
    ensures DeconstructFields(fields, buffers) == (fields, buffers)
    decreases fields, 1
  {
    if fields != [] {
      assert fields == [fields[0]] + fields[1..];
      DeconstructWithoutBuffers(fields[0].value, buffers);
      DeconstructFieldsWithoutBuffers(fields[1..], buffers);
    }
  }

  /** No object of data with buffers passes for a placeholder. Data without
      buffers is not searched for placeholders and may hold any object. */
  ghost predicate Unambiguous(p: Packet) {
    SentBuffers(p) != [] && p.data.Some? ==> PlaceholderFree(p.data.value)
  }

  /** What the decoder makes of the frames of `p`. */
  function Received(p: Packet): Packet {
    if SentBuffers(p) == [] then Expected(p) else ReconstructPacket(WirePacket(p), SentBuffers(p))
  }

  lemma ReceivedIsExpected(p: Packet)
    requires p.data.Some? ==> p.data.value.Array?
    requires p.attachments.None?
    ensures Received(p) == Expected(p) <==> Unambiguous(p)
  {
    hide Reconstruct, Deconstruct, HasBinary, PlaceholderFree;
    if SentBuffers(p) != [] { ReconstructWireData(p); }
  }

  /** From whatever state, the frames of a sendable packet make the decoder
      emit one packet, which is the one sent exactly when it is unambiguous. */
  lemma FramesRoundTrip(p: Packet, st: DecoderState, host: Host)
    requires HandlesNumerals(host) && Sendable(p, host)
    ensures var r := AddAll(st, Encode(p, host), host);
            r.Ok? && r.value.emitted == st.emitted + [Received(p)]
    ensures Received(p) == Expected(p) <==> Unambiguous(p)
  {
    hide EncodeAsString, DecodeString, Reconstruct, Deconstruct, HasBinary, PlaceholderFree;
    ReceivedIsExpected(p);
    DecodeStringOfPrinted(p, host);
    WireAttachments(p);
    var w, buffers := WirePacket(p), SentBuffers(p);
    var frames := Encode(p, host);
    assert frames[1..] == BufferFrames(buffers);
    var st' := Add(st, frames[0], host).value;
    if buffers != [] {
      CollectBuffers(st', Reconstruction(w, []), buffers, host);
      assert [] + buffers == buffers;
    } else {
      if IsBinary(w.ptype) { NothingDeconstructed(p); }
      assert frames[1..] == [];
    }
  }
}

/** The path of the messages through all the layers: manager, engine socket,
    packets and payloads on the wire, and the decoder at the other end. */
module EndToEnd {
  import opened Js
  import Numerals
  import Utf8
  import opened EnginePacket
  import EnginePayload
  import EngineSocket
  import opened SocketPacket
  import Manager

  type EngineMessage = EnginePacket.Packet
  type SocketMessage = SocketPacket.Packet

  /** `engine.write`: a frame becomes a message packet. */
  function Message(f: Frame): EngineMessage {
    EnginePacket.Packet(MESSAGE, match f case TextFrame(s) => Text(s) case BufferFrame(b) => Binary(b))
  }

  /** Message packets have the type 4. */
  lemma MessageFormat(f: Frame)
    ensures Message(f).code == 4
    ensures Message(f).data == match f case TextFrame(s) => Text(s) case BufferFrame(b) => Binary(b)
  {
  }

  function Messages(frames: seq<Frame>): (r: seq<EngineMessage>)
    ensures |r| == |frames|
  {
    seq(|frames|, i requires 0 <= i < |frames| => Message(frames[i]))
  }

  /** How a batch travels: one payload of a polling request, as text or as
      binary, or packet by packet over a websocket. */
  datatype Channel = TextPolling | BinaryPolling | PacketByPacket(supportsBinary: bool)

  datatype Transmission = Transmission(channel: Channel, batch: seq<EngineMessage>)

  function EachPacket(batch: seq<EngineMessage>, supportsBinary: bool): seq<Delivery> {
    if batch == [] then []
    else
      EachPacket(batch[..|batch| - 1], supportsBinary) +
      [DecodePacket(EncodePacket(batch[|batch| - 1], supportsBinary, false), false)]
  }

  /** What the other end gets out of a transmission. */
  function Carried(t: Transmission, number: EnginePayload.NumberOf): seq<Delivery> {
    match t.channel
    case TextPolling =>
      EnginePayload.DecodeTextPayload(EnginePayload.EncodeTextPayload(t.batch), number, _ => false)
    case BinaryPolling =>
      EnginePayload.DecodeBinaryPayload(EnginePayload.EncodeBinaryPayload(t.batch))
    case PacketByPacket(supportsBinary) => EachPacket(t.batch, supportsBinary)
  }

  function CarriedAll(ts: seq<Transmission>, number: EnginePayload.NumberOf): seq<Delivery> {
    if ts == [] then [] else CarriedAll(ts[..|ts| - 1], number) + Carried(ts[|ts| - 1], number)
  }

  function Batches(ts: seq<Transmission>): seq<EngineMessage> {
    if ts == [] then [] else Batches(ts[..|ts| - 1]) + ts[|ts| - 1].batch
  }

  /** The data of message packets goes to the decoder, which throws on a packet
      without data. */
  function Feed(st: DecoderState, ds: seq<Delivery>, host: Host): Result<DecoderState>
    decreases |ds|
  {
    if ds == [] then Ok(st) else
      match FeedOne(st, ds[0], host)
      case Thrown => Thrown
      case Ok(st') => Feed(st', ds[1..], host)
  }

  function FeedOne(st: DecoderState, d: Delivery, host: Host): Result<DecoderState> {
    if d.Deliver? && d.packet.code == MESSAGE then
      match d.packet.data
      case Absent => Thrown
      case Text(s) => Add(st, TextFrame(s), host)
      case Binary(b) => Add(st, BufferFrame(b), host)
    else Ok(st)
  }

  // ---------- one transmission ----------

  /** In a binary payload, messages without lone surrogates and no absurd length. */
  ghost predicate Carries(c: Channel, p: EngineMessage) {
    c == BinaryPolling ==>
      && (p.code == MESSAGE && p.data.Text? ==> Utf8.WellFormed(p.data.text))
      && |Numerals.Decimal(|EnginePayload.Bytes(EncodePacket(p, true, true))|)| <= 311
  }

  predicate NoEmptyMessage(ps: seq<EngineMessage>) {
    forall i | 0 <= i < |ps| && ps[i].code == MESSAGE :: ps[i].data != Text([])
  }

  /** Each packet has arrived, with its type, and the messages unchanged. */
  predicate Arrived(ds: seq<Delivery>, batch: seq<EngineMessage>) {
    && |ds| == |batch|
    && forall i | 0 <= i < |ds| :: ArrivedOne(ds[i], batch[i])
  }

  predicate ArrivedOne(d: Delivery, p: EngineMessage) {
    d.Deliver? && d.packet.code == p.code && (p.code == MESSAGE ==> d.packet == p)
  }

  lemma CarriedUnchanged(c: Channel, p: EngineMessage)
    requires Carries(c, p) && (p.code == MESSAGE ==> p.data != Text([]))
    ensures ArrivedOne(Deliver(Normal(p, c == BinaryPolling)), p)
  {
    if p.data.Text? { Utf8.SanitizeIsIdentity(p.data.text); }
  }

  lemma OtherwiseUnchanged(p: EngineMessage)
    requires p.code == MESSAGE ==> p.data != Text([])
    ensures ArrivedOne(Deliver(Normal(p, false)), p)
  {
  }

  lemma {:induction false} DeliveredUnchanged(c: Channel, batch: seq<EngineMessage>)
    requires NoEmptyMessage(batch) && forall p | p in batch :: Carries(c, p)
    ensures Arrived(EnginePayload.Delivered(batch, c == BinaryPolling, _ => false), batch)
  {
    hide Normal, Carries, ArrivedOne;
    if batch != [] {
      CarriedUnchanged(c, batch[0]);
      assert forall p | p in batch[1..] :: p in batch;
      DeliveredUnchanged(c, batch[1..]);
    }
  }

  lemma {:induction false} EachPacketUnchanged(batch: seq<EngineMessage>, supportsBinary: bool)
    requires NoEmptyMessage(batch)
    ensures Arrived(EachPacket(batch, supportsBinary), batch)
  {
    hide EncodePacket, DecodePacket, Normal, Carries, ArrivedOne;
    if batch != [] {
      var front, last := batch[..|batch| - 1], batch[|batch| - 1];
      EachPacketUnchanged(front, supportsBinary);
      OtherwiseUnchanged(last);
      PacketRoundTrip(last, supportsBinary, false);
    }
  }

  /** A batch arrives in order, with the messages unchanged. */
  lemma TransmissionCarries(t: Transmission, number: EnginePayload.NumberOf)
    requires EnginePayload.ReadsDecimals(number)
    requires NoEmptyMessage(t.batch) && forall p | p in t.batch :: Carries(t.channel, p)
    ensures Arrived(Carried(t, number), t.batch)
  {
    hide EncodePacket, Arrived, EnginePayload.DecodeBinaryPayload, EnginePayload.DecodeTextPayload,
         EnginePayload.EncodeBinaryPayload, EnginePayload.EncodeTextPayload, EnginePayload.Delivered;
    match t.channel {
      case TextPolling =>
        EnginePayload.TextPayloadRoundTrip(t.batch, number, _ => false);
        DeliveredUnchanged(t.channel, t.batch);
      case BinaryPolling =>
        EnginePayload.BinaryPayloadRoundTrip(t.batch);
        DeliveredUnchanged(t.channel, t.batch);
      case PacketByPacket(supportsBinary) =>
        EachPacketUnchanged(t.batch, supportsBinary);
    }
  }

  lemma {:induction false} TransmissionsCarry(ts: seq<Transmission>, number: EnginePayload.NumberOf)
    requires EnginePayload.ReadsDecimals(number)
    requires NoEmptyMessage(Batches(ts)) && forall t, p | t in ts && p in t.batch :: Carries(t.channel, p)
    ensures Arrived(CarriedAll(ts, number), Batches(ts))
  {
    hide Carried, Carries, NoEmptyMessage, Arrived;
    if ts == [] {
      NothingArrived();
    } else {
      var front, last := ts[..|ts| - 1], ts[|ts| - 1];
      NoEmptyMessageSplits(Batches(front), last.batch);
      assert forall t | t in front :: t in ts;
      TransmissionsCarry(front, number);
      TransmissionCarries(last, number);
      ArrivedAppend(CarriedAll(front, number), Batches(front), Carried(last, number), last.batch);
    }
  }

  lemma NothingArrived()
    ensures Arrived([], [])
  {
  }

  lemma ArrivedAppend(ds: seq<Delivery>, a: seq<EngineMessage>, es: seq<Delivery>, b: seq<EngineMessage>)
    requires Arrived(ds, a) && Arrived(es, b)
    ensures Arrived(ds + es, a + b)
  {
    hide ArrivedOne;
  }

  lemma NoEmptyMessageSplits(a: seq<EngineMessage>, b: seq<EngineMessage>)
    requires NoEmptyMessage(a + b)
    ensures NoEmptyMessage(a) && NoEmptyMessage(b)
  {
    assert forall i | 0 <= i < |a| :: a[i] == (a + b)[i];
    assert forall i | 0 <= i < |b| :: b[i] == (a + b)[|a| + i];
  }

  // ---------- messages among other packets ----------

  /** The messages, without pings and other packets of the engine. */
  function MessagesOnly(ps: seq<EngineMessage>): seq<EngineMessage> {
    if ps == [] then []
    else (if ps[0].code == MESSAGE then [ps[0]] else []) + MessagesOnly(ps[1..])
  }

  lemma OneMessageOnly(p: EngineMessage)
    ensures MessagesOnly([p]) == if p.code == 4 then [p] else []
  {
  }

  lemma {:induction false} MessagesOnlyAppend(a: seq<EngineMessage>, b: seq<EngineMessage>)
    ensures MessagesOnly(a + b) == MessagesOnly(a) + MessagesOnly(b)
  {
    if a == [] {
      assert a + b == b;
    } else {
      assert (a + b)[1..] == a[1..] + b;
      MessagesOnlyAppend(a[1..], b);
      ConcatAssociative(if a[0].code == MESSAGE then [a[0]] else [], MessagesOnly(a[1..]), MessagesOnly(b));
    }
  }

  lemma {:induction false} NoMessageIsEmpty(ps: seq<EngineMessage>)
    requires NoEmptyMessage(MessagesOnly(ps))
    ensures NoEmptyMessage(ps)
  {
    if ps != [] {
      var head := if ps[0].code == MESSAGE then [ps[0]] else [];
      NoEmptyMessageSplits(head, MessagesOnly(ps[1..]));
      NoMessageIsEmpty(ps[1..]);
      assert ps[0].code == MESSAGE ==> head[0] == ps[0];
      assert forall i | 1 <= i < |ps| :: ps[i] == ps[1..][i - 1];
    }
  }

  /** The text of a frame begins with the type of its packet. */
  lemma EncodedIsNotEmpty(p: SocketMessage, host: Host)
    ensures NoEmptyMessage(Messages(Encode(p, host)))
  {
    hide WirePacket, SentBuffers;
  }

  lemma {:induction false} FramesAreNotEmpty(ps: seq<SocketMessage>, host: Host)
    ensures NoEmptyMessage(Messages(Manager.EncodeAll(ps, host)))
  {
    hide Encode, Message;
    if ps != [] {
      var front, last := Manager.EncodeAll(ps[..|ps| - 1], host), Encode(ps[|ps| - 1], host);
      FramesAreNotEmpty(ps[..|ps| - 1], host);
      EncodedIsNotEmpty(ps[|ps| - 1], host);
      assert Messages(front + last) == Messages(front) + Messages(last);
    }
  }

  // ---------- the decoder ----------

  /** The decoder sees the frames, whatever other packets come between them. */
  lemma {:induction false} FeedMessages(st: DecoderState, ds: seq<Delivery>, batch: seq<EngineMessage>,
                                        frames: seq<Frame>, host: Host)
    requires Arrived(ds, batch) && MessagesOnly(batch) == Messages(frames)
    ensures Feed(st, ds, host) == AddAll(st, frames, host)
    decreases |ds|
  {
    hide Add;
    if batch == [] {
      assert |frames| == |Messages(frames)| == 0;
    } else {
      assert ArrivedOne(ds[0], batch[0]) && Arrived(ds[1..], batch[1..]);
      if batch[0].code != MESSAGE {
        FeedMessages(st, ds[1..], batch[1..], frames, host);
      } else {
        assert Messages(frames)[0] == batch[0] == Message(frames[0]);
        assert MessagesOnly(batch[1..]) == Messages(frames)[1..] == Messages(frames[1..]);
        assert FeedOne(st, ds[0], host) == Add(st, frames[0], host);
        match Add(st, frames[0], host) {
          case Ok(st') => FeedMessages(st', ds[1..], batch[1..], frames[1..], host);
          case Thrown =>
        }
      }
    }
  }

  lemma AddOnlyEmits(st: DecoderState, f: Frame, host: Host)
    ensures var r := Add(st, f, host); r.Ok? ==> st.emitted <= r.value.emitted
  {
    hide DecodeString, ReconstructPacket;
  }

  /** What a decoder has emitted after the first frames stays. */
  lemma {:induction false} AddAllPrefix(st: DecoderState, a: seq<Frame>, b: seq<Frame>, host: Host)
    requires AddAll(st, a + b, host).Ok?
    ensures AddAll(st, a, host).Ok?
    ensures st.emitted <= AddAll(st, a, host).value.emitted <= AddAll(st, a + b, host).value.emitted
    decreases |a| + |b|
  {
    hide Add;
    if a != [] {
      assert (a + b)[1..] == a[1..] + b;
      AddOnlyEmits(st, a[0], host);
      AddAllPrefix(Add(st, a[0], host).value, a[1..], b, host);
    } else if b != [] {
      assert a + b == b;
      AddOnlyEmits(st, b[0], host);
      assert [] + b[1..] == b[1..];
      AddAllPrefix(Add(st, b[0], host).value, [], b[1..], host);
    } else {
      assert a + b == a;
    }
  }

  // ---------- the whole path ----------

  /** The packets sent carry the first of the frames, and these the decoder gets. */
  lemma SentFramesArrive(sent: seq<EngineMessage>, waiting: seq<EngineMessage>, written: seq<Frame>,
                         ts: seq<Transmission>, number: EnginePayload.NumberOf, host: Host)
    requires EnginePayload.ReadsDecimals(number) && Batches(ts) == sent
    requires MessagesOnly(sent + waiting) == Messages(written) && NoEmptyMessage(Messages(written))
    requires forall t, p | t in ts && p in t.batch :: Carries(t.channel, p)
    requires AddAll(DecoderState(None, []), written, host).Ok?
    ensures var r := Feed(DecoderState(None, []), CarriedAll(ts, number), host);
            var all := AddAll(DecoderState(None, []), written, host).value.emitted;
            && r.Ok? && r.value.emitted <= all
            && (MessagesOnly(waiting) == [] ==> r.value.emitted == all)
  {
    hide Carries, CarriedAll, Feed, AddAll, MessagesOnly, NoEmptyMessage, Arrived;
    var start := DecoderState(None, []);
    MessagesOnlyAppend(sent, waiting);
    NoEmptyMessageSplits(MessagesOnly(sent), MessagesOnly(waiting));
    NoMessageIsEmpty(sent);
    TransmissionsCarry(ts, number);
    var k := |MessagesOnly(sent)|;
    assert MessagesOnly(sent) == Messages(written)[..k] == Messages(written[..k]);
    FeedMessages(start, CarriedAll(ts, number), sent, written[..k], host);
    assert written == written[..k] + written[k..];
    AddAllPrefix(start, written[..k], written[k..], host);
    assert MessagesOnly(waiting) == [] ==> written[..k] == written;
  }

  /** Over every run of the manager and of the engine socket that is given its
      frames, among any other packets, and however the packets sent are split
      into batches and carried: the decoder never throws, and has emitted the
      first of the packets handed over, in order and up to the retyping; and all
      of the packets that are encoded, when no message waits in the engine. */
  lemma MessagesArrive(events: seq<Manager.Event>, host: Host, kind: EngineSocket.Kind, steps: seq<EngineSocket.Event>,
                       ts: seq<Transmission>, number: EnginePayload.NumberOf)
    requires HandlesNumerals(host) && EnginePayload.ReadsDecimals(number)
    requires Manager.AllSendable(Manager.Accepted(events), host)
    requires MessagesOnly(EngineSocket.Accepted(kind, steps)) == Messages(Manager.Run(events, host).written)
    requires EngineSocket.Run(EngineSocket.Initial(kind), steps).readyState != EngineSocket.SocketClosed
    requires Batches(ts) == EngineSocket.Sent(EngineSocket.Run(EngineSocket.Initial(kind), steps))
    requires forall t, p | t in ts && p in t.batch :: Carries(t.channel, p)
    ensures
      var m, s := Manager.Run(events, host), EngineSocket.Run(EngineSocket.Initial(kind), steps);
      var accepted, n := Manager.Accepted(events), Manager.DoneCount(m, Manager.Accepted(events));
      var r := Feed(DecoderState(None, []), CarriedAll(ts, number), host);
      && 0 <= n <= |accepted| && r.Ok?
      && r.value.emitted <= Manager.Each(accepted[..n], Expected)
      && s.prevBufferLen <= |s.writeBuffer|
      && (MessagesOnly(s.writeBuffer[s.prevBufferLen..]) == [] ==>
            r.value.emitted == Manager.Each(accepted[..n], Expected))
      && (m.encoding.None? ==> n == |accepted|)
  {
    hide Manager.Run, Manager.Accepted, Manager.DoneCount, Manager.AllSendable, EngineSocket.Run, EngineSocket.Accepted,
         EngineSocket.Sent, Expected, Carries, CarriedAll, Feed, AddAll, Manager.Each, HandlesNumerals,
         MessagesOnly, NoEmptyMessage, Arrived;
    var written := Manager.Run(events, host).written;
    var s := EngineSocket.Run(EngineSocket.Initial(kind), steps);
    Manager.TransportDelivers(events, host);
    EngineSocket.SentExactlyOnce(kind, steps);
    Manager.RunIsFifo(events, host);
    var n := Manager.DoneCount(Manager.Run(events, host), Manager.Accepted(events));
    FramesAreNotEmpty(Manager.Accepted(events)[..n], host);
    SentFramesArrive(Batches(ts), s.writeBuffer[s.prevBufferLen..], written, ts, number, host);
  }
}

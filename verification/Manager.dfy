/** The packet queue of the manager (module 13): one packet is encoded at a
    time, the rest wait, and each encoding ends at some later step. */
module Manager {
  import opened Js
  import opened SocketPacket

  /** `encoding` holds the packet being encoded; `written` is what the
      transport was given so far. */
  datatype State = State(encoding: Option<Packet>, packetBuffer: seq<Packet>, written: seq<Frame>)

  const INITIAL := State(None, [], [])

  /** A packet is handed over, or the encoder calls back. */
  datatype Event = Send(packet: Packet) | Encoded

  function SendPacket(s: State, p: Packet): State {
    if s.encoding.Some? then s.(packetBuffer := s.packetBuffer + [p]) else s.(encoding := Some(p))
  }

  function ProcessPacketQueue(s: State): State {
    if s.packetBuffer != [] && s.encoding.None? then
      SendPacket(s.(packetBuffer := s.packetBuffer[1..]), s.packetBuffer[0])
    else s
  }

  function Step(s: State, e: Event, host: Host): State {
    match e
    case Send(p) => SendPacket(s, p)
    case Encoded =>
      if s.encoding.None? then s
      else ProcessPacketQueue(State(None, s.packetBuffer, s.written + Encode(s.encoding.value, host)))
  }

  function Run(events: seq<Event>, host: Host): State {
    if events == [] then INITIAL
    else Step(Run(events[..|events| - 1], host), events[|events| - 1], host)
  }

  /** The packets handed over, in order. */
  function Accepted(events: seq<Event>): seq<Packet> {
    if events == [] then []
    else
      Accepted(events[..|events| - 1]) +
      match events[|events| - 1] case Send(p) => [p] case Encoded => []
  }

  function EncodeAll(ps: seq<Packet>, host: Host): seq<Frame> {
    if ps == [] then [] else EncodeAll(ps[..|ps| - 1], host) + Encode(ps[|ps| - 1], host)
  }

  /** The manager object; `written` stands for the engine's `write`. */
  class PacketManager {
    var encoding: bool
    var packetBuffer: seq<Packet>
    /** The packet that the pending callback of the encoder is about. */
    var inEncoder: Packet
    ghost var written: seq<Frame>

    ghost function View(): State
      reads this
    {
      State(if encoding then Some(inEncoder) else None, packetBuffer, written)
    }

    constructor ()
      ensures View() == INITIAL
    {
      encoding, packetBuffer, written, inEncoder := false, [], [], ERROR_PACKET;
    }

    method Packet(p: Packet)
      modifies this
      ensures View() == SendPacket(old(View()), p)
    {
      if encoding {
        packetBuffer := packetBuffer + [p];
      } else {
        encoding := true;
        inEncoder := p;
      }
    }

    method ProcessQueue()
      modifies this
      ensures View() == ProcessPacketQueue(old(View()))
    {
      if |packetBuffer| > 0 && !encoding {
        var p := packetBuffer[0];
        packetBuffer := packetBuffer[1..];
        Packet(p);
      }
    }

    /** The callback of the encoder. */
    method OnEncoded(host: Host)
      requires encoding
      modifies this
      ensures View() == Step(old(View()), Encoded, host)
    {
      var frames := Encode(inEncoder, host);
      var r := 0;
      while r < |frames|
        invariant r <= |frames|
        invariant encoding && packetBuffer == old(packetBuffer)
        invariant written == old(written) + frames[..r]
      {
        written := written + [frames[r]];
        r := r + 1;
      }
      assert frames[..r] == frames;
      encoding := false;
      ProcessQueue();
    }

    method Handle(e: Event, host: Host)
      modifies this
      ensures View() == Step(old(View()), e, host)
    {
      match e {
        case Send(p) => Packet(p);
        case Encoded => if encoding { OnEncoded(host); }
      }
    }
  }

  /** Over every run of events a manager is in the state of the run. */
  method HandleAll(events: seq<Event>, host: Host) returns (m: PacketManager)
    ensures fresh(m) && m.View() == Run(events, host)
  {
    hide Step;
    m := new PacketManager();
    var i := 0;
    assert events[..0] == [];
    while i < |events|
      invariant i <= |events| && fresh(m) && m.View() == Run(events[..i], host)
    {
      assert events[..i + 1][..i] == events[..i];
      m.Handle(events[i], host);
      i := i + 1;
    }
    assert events[..i] == events;
  }

  // ---------- every run keeps the order ----------

  function InEncoder(s: State): seq<Packet> {
    if s.encoding.Some? then [s.encoding.value] else []
  }

  /** How many of the accepted packets are done. */
  function DoneCount(s: State, accepted: seq<Packet>): int {
    |accepted| - |InEncoder(s)| - |s.packetBuffer|
  }

  /** The frames of the packets that are done are written, each packet's frames
      together and in order; the other accepted packets are in the encoder or
      wait in order, and none waits for an idle encoder. */
  ghost predicate Fifo(s: State, accepted: seq<Packet>, host: Host) {
    var n := DoneCount(s, accepted);
    && n >= 0
    && accepted[n..] == InEncoder(s) + s.packetBuffer
    && s.written == EncodeAll(accepted[..n], host)
    && (s.encoding.None? ==> s.packetBuffer == [])
  }

  lemma SendKeepsFifo(s: State, p: Packet, accepted: seq<Packet>, host: Host)
    requires Fifo(s, accepted, host)
    ensures Fifo(SendPacket(s, p), accepted + [p], host)
  {
    hide EncodeAll;
    var n := DoneCount(s, accepted);
    assert (accepted + [p])[n..] == accepted[n..] + [p];
    assert (accepted + [p])[..n] == accepted[..n];
  }

  lemma EncodeOneMore(ps: seq<Packet>, n: nat, host: Host)
    requires n < |ps|
    ensures EncodeAll(ps[..n + 1], host) == EncodeAll(ps[..n], host) + Encode(ps[n], host)
  {
    assert ps[..n + 1][..n] == ps[..n];
  }

  lemma EncodedKeepsFifo(s: State, accepted: seq<Packet>, host: Host)
    requires Fifo(s, accepted, host)
    ensures Fifo(Step(s, Encoded, host), accepted, host)
  {
    hide Encode, EncodeAll;
    if s.encoding.Some? {
      var n := DoneCount(s, accepted);
      assert accepted[n] == accepted[n..][0] == s.encoding.value;
      EncodeOneMore(accepted, n, host);
      assert accepted[n + 1..] == accepted[n..][1..] == s.packetBuffer;
      if s.packetBuffer != [] {
        assert s.packetBuffer == [s.packetBuffer[0]] + s.packetBuffer[1..];
      }
    }
  }

  /** In every reachable state. */
  lemma {:induction false} RunIsFifo(events: seq<Event>, host: Host)
    ensures Fifo(Run(events, host), Accepted(events), host)
  {
    hide Encode, EncodeAll, Fifo;
    if events == [] {
      NothingEncoded(host);
    } else {
      var front, last := events[..|events| - 1], events[|events| - 1];
      RunIsFifo(front, host);
      match last
      case Send(p) => SendKeepsFifo(Run(front, host), p, Accepted(front), host);
      case Encoded =>
        EncodedKeepsFifo(Run(front, host), Accepted(front), host);
        assert Accepted(front) + [] == Accepted(front);
    }
  }

  /** Every completed encoding finishes one more packet, and takes the next one:
      so as many completions as there are unfinished packets finish them all. */
  lemma EncodedFinishesOne(s: State, accepted: seq<Packet>, host: Host)
    requires Fifo(s, accepted, host) && s.encoding.Some?
    ensures var r := Step(s, Encoded, host);
            && DoneCount(r, accepted) == DoneCount(s, accepted) + 1
            && r.written == s.written + Encode(s.encoding.value, host)
            && (if s.packetBuffer == [] then r.encoding.None?
                else r.encoding == Some(s.packetBuffer[0]) && r.packetBuffer == s.packetBuffer[1..])
  {
    hide Encode;
  }

  lemma NotIdleBeforeAllIsDone(s: State, accepted: seq<Packet>, host: Host)
    requires Fifo(s, accepted, host) && |InEncoder(s)| + |s.packetBuffer| > 0
    ensures s.encoding.Some?
  {
  }

  function Completions(n: nat): (events: seq<Event>)
    ensures |events| == n
  {
    if n == 0 then [] else Completions(n - 1) + [Encoded]
  }

  lemma RunOneMore(events: seq<Event>, e: Event, host: Host)
    ensures Run(events + [e], host) == Step(Run(events, host), e, host)
    ensures Accepted(events + [e]) == Accepted(events) + if e.Send? then [e.packet] else []
  {
    assert (events + [e])[..|events|] == events;
  }

  lemma {:induction false} CompletionsFinishAll(events: seq<Event>, n: nat, host: Host)
    requires n <= |InEncoder(Run(events, host))| + |Run(events, host).packetBuffer|
    ensures var s := Run(events + Completions(n), host);
            && Accepted(events + Completions(n)) == Accepted(events)
            && |InEncoder(s)| + |s.packetBuffer|
               == |InEncoder(Run(events, host))| + |Run(events, host).packetBuffer| - n
    decreases n
  {
    hide Encode, EncodeAll, Step, Fifo, Run, Accepted;
    if n == 0 {
      assert events + [] == events;
    } else {
      var before := events + Completions(n - 1);
      CompletionsFinishAll(events, n - 1, host);
      assert events + Completions(n) == before + [Encoded];
      RunOneMore(before, Encoded, host);
      RunIsFifo(before, host);
      NotIdleBeforeAllIsDone(Run(before, host), Accepted(before), host);
      EncodedFinishesOne(Run(before, host), Accepted(before), host);
    }
  }

  lemma NothingEncoded(host: Host)
    ensures Fifo(INITIAL, [], host)
  {
  }

  function Each(ps: seq<Packet>, f: Packet -> Packet): (r: seq<Packet>)
    ensures |r| == |ps|
  {
    seq(|ps|, i requires 0 <= i < |ps| => f(ps[i]))
  }

  lemma {:induction false} AddAllAppend(st: DecoderState, a: seq<Frame>, b: seq<Frame>, host: Host)
    requires AddAll(st, a, host).Ok?
    ensures AddAll(st, a + b, host) == AddAll(AddAll(st, a, host).value, b, host)
    decreases |a|
  {
    hide Add;
    if a == [] {
      assert a + b == b;
    } else {
      assert (a + b)[1..] == a[1..] + b;
      AddAllAppend(Add(st, a[0], host).value, a[1..], b, host);
    }
  }

  ghost predicate AllSendable(ps: seq<Packet>, host: Host) {
    forall p | p in ps :: Sendable(p, host) && Unambiguous(p)
  }

  lemma {:induction false} DecodeEncodedPackets(ps: seq<Packet>, host: Host)
    requires HandlesNumerals(host) && AllSendable(ps, host)
    ensures var r := AddAll(DecoderState(None, []), EncodeAll(ps, host), host);
            r.Ok? && r.value.emitted == Each(ps, Expected)
  {
    hide Encode, Add, Expected, Sendable, Unambiguous, HandlesNumerals;
    if ps != [] {
      var front, last := ps[..|ps| - 1], ps[|ps| - 1];
      DecodeEncodedPackets(front, host);
      var start := DecoderState(None, []);
      AddAllAppend(start, EncodeAll(front, host), Encode(last, host), host);
      FramesRoundTrip(last, AddAll(start, EncodeAll(front, host), host).value, host);
      assert Each(ps, Expected) == Each(front, Expected) + [Expected(last)];
    }
  }

  /** The whole path: after any run the decoder at the other end has emitted
      exactly the packets that are done, in the order they were handed over,
      and once the encoder is idle these are all. */
  lemma TransportDelivers(events: seq<Event>, host: Host)
    requires HandlesNumerals(host) && AllSendable(Accepted(events), host)
    ensures var s, accepted := Run(events, host), Accepted(events);
            var n := DoneCount(s, accepted);
            var r := AddAll(DecoderState(None, []), s.written, host);
            && 0 <= n <= |accepted| && r.Ok? && r.value.emitted == Each(accepted[..n], Expected)
            && accepted[n..] == InEncoder(s) + s.packetBuffer
            && (s.encoding.None? ==> n == |accepted|)
  {
    hide Run, Expected, EncodeAll;
    RunIsFifo(events, host);
    var done := Accepted(events)[..DoneCount(Run(events, host), Accepted(events))];
    assert forall p | p in done :: p in Accepted(events);
    DecodeEncodedPackets(done, host);
  }
}

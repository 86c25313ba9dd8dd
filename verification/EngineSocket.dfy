/** The write buffer of the engine socket: flushing, draining, the upgrade from
    polling to websocket, and closing (module 15, with the transports of
    modules 20, 21 and 34 as far as they signal back). */
module EngineSocket {
  import opened EnginePacket

  datatype Kind = Polling | WebSocket

  datatype TransportState = Opening | Open | Pausing | Paused

  /** One packet on the wire: from the write buffer, or sent by the upgrade. */
  datatype Wire = FromBuffer(packet: Packet) | Probe | UpgradeMark

  /** A transport. `drains` counts the writes whose completion is still to be
      signalled; every signal makes the transport writable again. */
  datatype Transport = Transport(
    kind: Kind,
    state: TransportState,
    writable: bool,
    polling: bool,
    drains: nat,
    wire: seq<Wire>)

  datatype ReadyState = SocketOpening | SocketOpen | SocketClosing | SocketClosed

  /** The upgrade attempt: none, waiting for the probe's answer, answered and
      waiting for the old transport to pause, or over. */
  datatype Upgrade =
    | NoUpgrade
    | Probing(probe: Transport)
    | Switching(probe: Transport)
    | Abandoned
    | UpgradeFailed
    | Upgraded(previous: Transport)

  /** How a socket came to be closed. */
  datatype CloseReason = NotClosed | Requested | TransportLost

  datatype State = State(
    readyState: ReadyState,
    handshaken: bool,
    writeBuffer: seq<Packet>,
    prevBufferLen: nat,
    upgrading: bool,
    transport: Transport,
    upgrade: Upgrade,
    waitPoll: bool,
    waitDrain: bool,
    closeOnDrain: bool,
    closeOnUpgrade: bool,
    closeReason: CloseReason,
    reopened: bool,
    lost: seq<Packet>,
    accepted: seq<Packet>,
    handed: seq<Packet>,
    sendThrew: bool)

  function NewTransport(kind: Kind): Transport {
    Transport(kind, Opening, false, kind == Polling, 0, [])
  }

  function Initial(kind: Kind): State {
    State(SocketOpening, false, [], 0, false, NewTransport(kind), NoUpgrade,
          false, false, false, false, NotClosed, false, [], [], [], false)
  }

  datatype Event =
    | Send(packet: Packet)         // sendPacket
    | TransportOpened              // the current transport opens
    | Handshake(probe: bool)       // the open packet, offering an upgrade or not
    | PollComplete                 // a poll of the current transport ends
    | Drain                        // the current transport completes a write
    | ProbeOpened                  // the probing transport opens
    | ProbeDrain                   // the probing transport completes a write
    | ProbePong                    // the probe is answered
    | ProbeBadReply                // the probe is answered by something else
    | ProbeFailed                  // the probing transport fails or closes
    | Close                        // close() by the user
    | TransportFailed              // the current transport fails or closes

  // ---------- the steps ----------

  function Min(a: nat, b: nat): nat { if a <= b then a else b }

  function FromBuffers(ps: seq<Packet>): (r: seq<Wire>)
    ensures |r| == |ps|
  {
    seq(|ps|, i requires 0 <= i < |ps| => FromBuffer(ps[i]))
  }

  /** `transport.write`: not writable until the completion is signalled. */
  function Write(t: Transport, items: seq<Wire>): Transport {
    t.(writable := false, drains := t.drains + 1, wire := t.wire + items)
  }

  function Flush(s: State): (r: State)
    ensures r.accepted == s.accepted
  {
    if s.readyState != SocketClosed && s.transport.writable && !s.upgrading && s.writeBuffer != [] then
      if s.transport.state != Open then s.(sendThrew := true)
      else s.(transport := Write(s.transport, FromBuffers(s.writeBuffer)),
              prevBufferLen := |s.writeBuffer|,
              handed := s.handed + s.writeBuffer)
    else s
  }

  /** `onClose`: the buffer is dropped and a probe is given up. */
  function OnClose(s: State, reason: CloseReason): (r: State)
    ensures r.accepted == s.accepted && r.handed == s.handed
  {
    if s.readyState == SocketClosed then s
    else s.(readyState := SocketClosed, closeReason := reason,
            lost := s.writeBuffer[Min(s.prevBufferLen, |s.writeBuffer|)..], writeBuffer := [], prevBufferLen := 0,
            upgrade := if s.upgrade.Probing? || s.upgrade.Switching? then UpgradeFailed else s.upgrade)
  }

  function SendPacket(s: State, p: Packet): State {
    if s.readyState == SocketClosing || s.readyState == SocketClosed then s
    else Flush(s.(writeBuffer := s.writeBuffer + [p], accepted := s.accepted + [p]))
  }

  /** The listener that `close` leaves on the socket's drain event. */
  function SocketDrained(s: State): (r: State)
    ensures r.accepted == s.accepted && r.handed == s.handed
  {
    if !s.closeOnDrain then s
    else if s.upgrading then s.(closeOnDrain := false, closeOnUpgrade := true)
    else OnClose(s.(closeOnDrain := false), Requested)
  }

  function OnDrain(s: State): (r: State)
    ensures r.accepted == s.accepted
  {
    var s' := s.(writeBuffer := s.writeBuffer[Min(s.prevBufferLen, |s.writeBuffer|)..], prevBufferLen := 0);
    if s'.writeBuffer == [] then SocketDrained(s') else Flush(s')
  }

  function UpgradeSettled(s: State): (r: State)
    ensures r.accepted == s.accepted && r.handed == s.handed
  {
    if s.closeOnUpgrade then OnClose(s.(closeOnUpgrade := false), Requested) else s
  }

  /** The callback of `pause`: change the transport, unless the probe has failed
      or the socket is closed. */
  function PauseDone(s: State): (r: State)
    ensures r.accepted == s.accepted
  {
    var s' := s.(transport := s.transport.(state := Paused));
    if !s'.upgrade.Switching? || s'.readyState == SocketClosed then s'
    else
      var switched := s'.(transport := Write(s'.upgrade.probe, [UpgradeMark]), upgrade := Upgraded(s'.transport));
      Flush(UpgradeSettled(switched).(upgrading := false))
  }

  function Pause(s: State): (r: State)
    ensures r.accepted == s.accepted
  {
    var s' := s.(transport := s.transport.(state := Pausing),
                 waitPoll := s.transport.polling, waitDrain := !s.transport.writable);
    if s'.waitPoll || s'.waitDrain then s' else PauseDone(s')
  }

  /** A write of the current transport completes: first the socket hears of it,
      then a pause that waits for it. */
  function TransportDrained(s: State): (r: State)
    requires s.transport.drains > 0
    ensures r.accepted == s.accepted
  {
    var s' := OnDrain(s.(transport := s.transport.(writable := true, drains := s.transport.drains - 1)));
    if !s.waitDrain then s'
    else if s.waitPoll then s'.(waitDrain := false)
    else PauseDone(s'.(waitDrain := false))
  }

  function PollDone(s: State): (r: State)
    ensures r.accepted == s.accepted
  {
    if s.waitPoll then
      var s' := s.(transport := s.transport.(polling := false), waitPoll := false);
      if s.waitDrain then s' else PauseDone(s')
    else s.(transport := s.transport.(polling := s.transport.state == Open))
  }

  function OnHandshake(s: State, probe: bool): (r: State)
    ensures r.accepted == s.accepted
  {
    var s' := Flush(s.(readyState := SocketOpen, handshaken := true,
                       reopened := s.readyState == SocketClosing));
    if probe && s'.transport.kind == Polling then s'.(upgrade := Probing(NewTransport(WebSocket))) else s'
  }

  function CloseSocket(s: State): (r: State)
    ensures r.accepted == s.accepted && r.handed == s.handed
  {
    if s.readyState == SocketClosing then s
    else
      var s' := s.(readyState := SocketClosing);
      if s'.writeBuffer != [] then s'.(closeOnDrain := true)
      else if s'.upgrading then s'.(closeOnUpgrade := true)
      else OnClose(s', Requested)
  }

  function OnProbeOpened(s: State): (r: State)
    ensures r.accepted == s.accepted && r.handed == s.handed
  {
    if s.upgrade.Probing? && s.upgrade.probe.state == Opening then
      s.(upgrade := Probing(Write(s.upgrade.probe.(state := Open), [Probe])))
    else s
  }

  function OnProbeDrain(s: State): (r: State)
    ensures r.accepted == s.accepted && r.handed == s.handed
  {
    match s.upgrade
    case Probing(t) =>
      if t.drains > 0 then s.(upgrade := Probing(t.(writable := true, drains := t.drains - 1))) else s
    case Switching(t) =>
      if t.drains > 0 then s.(upgrade := Switching(t.(writable := true, drains := t.drains - 1))) else s
    case _ => s
  }

  function OnProbePong(s: State): (r: State)
    ensures r.accepted == s.accepted
  {
    if s.upgrade.Probing? && s.upgrade.probe.state == Open then
      Pause(s.(upgrading := true, upgrade := Switching(s.upgrade.probe)))
    else s
  }

  function OnProbeBadReply(s: State): (r: State)
    ensures r.accepted == s.accepted && r.handed == s.handed
  {
    if s.upgrade.Probing? && s.upgrade.probe.state == Open then UpgradeSettled(s.(upgrade := Abandoned)) else s
  }

  function OnProbeFailed(s: State): (r: State)
    ensures r.accepted == s.accepted && r.handed == s.handed
  {
    if s.upgrade.Probing? || s.upgrade.Switching? then UpgradeSettled(s.(upgrade := UpgradeFailed)) else s
  }

  function OnTransportOpened(s: State): (r: State)
    ensures r.accepted == s.accepted && r.handed == s.handed
  {
    if s.transport.state != Opening then s
    else s.(transport := s.transport.(state := Open, writable := true))
  }

  /** Events that cannot happen in a state leave it alone; nothing reaches a
      closed socket. */
  function Step(s: State, e: Event): State {
    if s.readyState == SocketClosed then s else
      match e
      case Send(p) => SendPacket(s, p)
      case TransportOpened => OnTransportOpened(s)
      case Handshake(probe) =>
        if s.handshaken || s.transport.state != Open then s else OnHandshake(s, probe)
      case PollComplete =>
        if s.transport.kind == Polling && s.transport.polling && s.transport.state in {Open, Pausing}
        then PollDone(s) else s
      case Drain => if s.transport.drains > 0 then TransportDrained(s) else s
      case ProbeOpened => OnProbeOpened(s)
      case ProbeDrain => OnProbeDrain(s)
      case ProbePong => OnProbePong(s)
      case ProbeBadReply => OnProbeBadReply(s)
      case ProbeFailed => OnProbeFailed(s)
      case Close => CloseSocket(s)
      case TransportFailed => OnClose(s, TransportLost)
  }

  function Run(s: State, events: seq<Event>): State {
    if events == [] then s else Step(Run(s, events[..|events| - 1]), events[|events| - 1])
  }

  /** The socket object. The fields that only record history are ghost. */
  class Socket {
    var readyState: ReadyState
    var handshaken: bool
    var writeBuffer: seq<Packet>
    var prevBufferLen: nat
    var upgrading: bool
    var transport: Transport
    var upgrade: Upgrade
    var waitPoll: bool
    var waitDrain: bool
    var closeOnDrain: bool
    var closeOnUpgrade: bool
    var sendThrew: bool
    ghost var closeReason: CloseReason
    ghost var reopened: bool
    ghost var lost: seq<Packet>
    ghost var accepted: seq<Packet>
    ghost var handed: seq<Packet>

    ghost function View(): State
      reads this
    {
      State(readyState, handshaken, writeBuffer, prevBufferLen, upgrading, transport, upgrade, waitPoll, waitDrain,
            closeOnDrain, closeOnUpgrade, closeReason, reopened, lost, accepted, handed, sendThrew)
    }

    constructor (kind: Kind)
      ensures View() == Initial(kind)
    {
      hide NewTransport;
      readyState, handshaken, writeBuffer, prevBufferLen, upgrading := SocketOpening, false, [], 0, false;
      transport, upgrade := NewTransport(kind), NoUpgrade;
      waitPoll, waitDrain, closeOnDrain, closeOnUpgrade, sendThrew := false, false, false, false, false;
      closeReason, reopened, lost, accepted, handed := NotClosed, false, [], [], [];
    }

    method FlushBuffer()
      modifies this
      ensures View() == Flush(old(View()))
    {
      hide FromBuffers, Write;
      if readyState != SocketClosed && transport.writable && !upgrading && |writeBuffer| > 0 {
        if transport.state != Open {
          sendThrew := true;
          return;
        }
        transport := Write(transport, FromBuffers(writeBuffer));
        prevBufferLen := |writeBuffer|;
        handed := handed + writeBuffer;
      }
    }

    method Shut(ghost reason: CloseReason)
      modifies this
      ensures View() == OnClose(old(View()), reason)
    {
      if readyState != SocketClosed {
        ghost var r := OnClose(View(), reason);
        readyState, closeReason := SocketClosed, reason;
        lost := writeBuffer[Min(prevBufferLen, |writeBuffer|)..];
        writeBuffer, prevBufferLen := [], 0;
        if upgrade.Probing? || upgrade.Switching? {
          upgrade := UpgradeFailed;
          assert lost == r.lost && View() == r;
          return;
        }
        assert lost == r.lost && upgrade == r.upgrade && View() == r;
      }
    }

    method Push(p: Packet)
      modifies this
      ensures View() == SendPacket(old(View()), p)
    {
      hide Flush;
      if readyState != SocketClosing && readyState != SocketClosed {
        accepted := accepted + [p];
        writeBuffer := writeBuffer + [p];
        FlushBuffer();
      }
    }

    method Drained()
      modifies this
      ensures View() == OnDrain(old(View()))
    {
      hide Flush, OnClose;
      writeBuffer := writeBuffer[Min(prevBufferLen, |writeBuffer|)..];
      prevBufferLen := 0;
      if |writeBuffer| > 0 {
        FlushBuffer();
      } else if closeOnDrain {
        closeOnDrain := false;
        if upgrading { closeOnUpgrade := true; } else { Shut(Requested); }
      }
    }

    method Settle()
      modifies this
      ensures View() == UpgradeSettled(old(View()))
    {
      hide OnClose;
      if closeOnUpgrade {
        closeOnUpgrade := false;
        Shut(Requested);
      }
    }

    method SetTransport(t: Transport)
      requires upgrade.Switching?
      modifies this
      ensures View() == old(View()).(transport := t, upgrade := Upgraded(old(transport)))
    {
      upgrade := Upgraded(transport);
      transport := t;
    }

    /** The end of the switch: settle, allow sending again, and send. */
    method Resume()
      modifies this
      ensures View() == Flush(UpgradeSettled(old(View())).(upgrading := false))
    {
      hide Flush, UpgradeSettled;
      Settle();
      upgrading := false;
      FlushBuffer();
    }

    method Paused()
      modifies this
      ensures View() == PauseDone(old(View()))
    {
      hide Flush, UpgradeSettled, Write;
      transport := transport.(state := TransportState.Paused);
      if upgrade.Switching? && readyState != SocketClosed {
        SetTransport(Write(upgrade.probe, [UpgradeMark]));
        Resume();
      }
    }

    method WriteCompleted()
      requires transport.drains > 0
      modifies this
      ensures View() == TransportDrained(old(View()))
    {
      hide OnDrain, PauseDone;
      var pausing, polling := waitDrain, waitPoll;
      transport := transport.(writable := true, drains := transport.drains - 1);
      Drained();
      if pausing {
        waitDrain := false;
        if !polling { Paused(); }
      }
    }

    method PollCompleted()
      modifies this
      ensures View() == PollDone(old(View()))
    {
      hide PauseDone;
      if waitPoll {
        transport, waitPoll := transport.(polling := false), false;
        if !waitDrain { Paused(); }
      } else {
        transport := transport.(polling := transport.state == TransportState.Open);
      }
    }

    method ShakeHands(probe: bool)
      modifies this
      ensures View() == OnHandshake(old(View()), probe)
    {
      hide Flush, NewTransport;
      reopened := readyState == SocketClosing;
      readyState, handshaken := SocketOpen, true;
      FlushBuffer();
      if probe && transport.kind == Polling { upgrade := Probing(NewTransport(WebSocket)); }
    }

    method ProbeAnswered()
      modifies this
      ensures View() == OnProbePong(old(View()))
    {
      hide PauseDone;
      if upgrade.Probing? && upgrade.probe.state == TransportState.Open {
        upgrading, upgrade := true, Switching(upgrade.probe);
        waitPoll, waitDrain := transport.polling, !transport.writable;
        transport := transport.(state := Pausing);
        if !waitPoll && !waitDrain { Paused(); }
      }
    }

    method CloseByUser()
      requires readyState != SocketClosed
      modifies this
      ensures View() == CloseSocket(old(View()))
    {
      hide OnClose;
      if readyState != SocketClosing {
        readyState := SocketClosing;
        if |writeBuffer| > 0 { closeOnDrain := true; }
        else if upgrading { closeOnUpgrade := true; }
        else { Shut(Requested); }
      }
    }

    /** `onOpen` of the current transport */
    method TransportOpens()
      modifies this
      ensures View() == OnTransportOpened(old(View()))
    {
      if transport.state == Opening {
        transport := transport.(state := TransportState.Open, writable := true);
      }
    }

    /** The probing transport opens: the probe is sent. */
    method SendProbe()
      modifies this
      ensures View() == OnProbeOpened(old(View()))
    {
      hide Write;
      if upgrade.Probing? && upgrade.probe.state == Opening {
        upgrade := Probing(Write(upgrade.probe.(state := TransportState.Open), [Probe]));
      }
    }

    method ProbeWritten()
      modifies this
      ensures View() == OnProbeDrain(old(View()))
    {
      if (upgrade.Probing? || upgrade.Switching?) && upgrade.probe.drains > 0 {
        var t := upgrade.probe.(writable := true, drains := upgrade.probe.drains - 1);
        upgrade := if upgrade.Probing? then Probing(t) else Switching(t);
      }
    }

    /** The probe is answered by something else: `upgradeError`. */
    method ProbeRejected()
      modifies this
      ensures View() == OnProbeBadReply(old(View()))
    {
      hide UpgradeSettled;
      if upgrade.Probing? && upgrade.probe.state == TransportState.Open {
        upgrade := Abandoned;
        Settle();
      }
    }

    /** The probing transport fails: the transport is frozen, `upgradeError`. */
    method ProbeFails()
      modifies this
      ensures View() == OnProbeFailed(old(View()))
    {
      hide UpgradeSettled;
      if upgrade.Probing? || upgrade.Switching? {
        upgrade := UpgradeFailed;
        Settle();
      }
    }

    /** The handlers refine the step. */
    method Handle(e: Event)
      modifies this
      ensures View() == Step(old(View()), e)
    {
      hide SendPacket, OnTransportOpened, OnHandshake, PollDone, TransportDrained, OnProbeOpened, OnProbeDrain,
           OnProbePong, OnProbeBadReply, OnProbeFailed, CloseSocket, OnClose;
      if readyState != SocketClosed {
        match e {
          case Send(p) => Push(p);
          case TransportOpened => TransportOpens();
          case Handshake(probe) =>
            if !handshaken && transport.state == TransportState.Open { ShakeHands(probe); }
          case PollComplete =>
            if transport.kind == Polling && transport.polling && transport.state in {TransportState.Open, Pausing} {
              PollCompleted();
            }
          case Drain => if transport.drains > 0 { WriteCompleted(); }
          case ProbeOpened => SendProbe();
          case ProbeDrain => ProbeWritten();
          case ProbePong => ProbeAnswered();
          case ProbeBadReply => ProbeRejected();
          case ProbeFailed => ProbeFails();
          case Close => CloseByUser();
          case TransportFailed => Shut(TransportLost);
        }
      }
    }

    /** And so, over every run, the object is in the state of the run. */
    method HandleAll(events: seq<Event>)
      modifies this
      ensures View() == Run(old(View()), events)
    {
      hide Step;
      var i := 0;
      assert events[..0] == [];
      while i < |events|
        invariant i <= |events| && View() == Run(old(View()), events[..i])
      {
        assert events[..i + 1][..i] == events[..i];
        Handle(events[i]);
        i := i + 1;
      }
      assert events[..i] == events;
    }
  }

  // ---------- the invariant ----------

  /** The packets from the write buffer among what a transport sent. */
  function FromBufferOnly(wire: seq<Wire>): seq<Packet> {
    if wire == [] then []
    else FromBufferOnly(wire[..|wire| - 1]) +
         match wire[|wire| - 1] case FromBuffer(p) => [p] case _ => []
  }

  /** All the packets the transports have sent, the old one's first. */
  function Sent(s: State): seq<Packet> {
    (if s.upgrade.Upgraded? then FromBufferOnly(s.upgrade.previous.wire) else []) + FromBufferOnly(s.transport.wire)
  }

  /** Handed to transports, then waiting: the accepted packets, each once and in
      order; the first `prevBufferLen` of the buffer are in flight. */
  ghost predicate ExactlyOnce(s: State) {
    && s.prevBufferLen <= |s.writeBuffer|
    && s.handed + s.writeBuffer[s.prevBufferLen..] == s.accepted
    && (s.prevBufferLen > 0 ==> !s.transport.writable)
    && Sent(s) == s.handed
  }

  /** A packet waits only for the handshake, a write in flight, or an upgrade. */
  ghost predicate NothingIdle(s: State) {
    s.handshaken && !s.upgrading && s.transport.writable ==> s.writeBuffer == []
  }

  ghost predicate PlainWire(wire: seq<Wire>) {
    forall i | 0 <= i < |wire| :: wire[i].FromBuffer?
  }

  /** A websocket that took over: the probe, the upgrade packet, then packets. */
  ghost predicate UpgradedWire(wire: seq<Wire>) {
    |wire| >= 2 && wire[0] == Probe && wire[1] == UpgradeMark && PlainWire(wire[2..])
  }

  ghost predicate TransportOk(s: State) {
    var t := s.transport;
    && (t.state == Opening ==> !t.writable && t.drains == 0 && s.prevBufferLen == 0)
    && (s.handshaken ==> t.state != Opening) && (s.upgrading ==> s.handshaken)
    && (t.state in {Pausing, Paused} <==> s.upgrading)
    && (t.kind == Polling ==>
          PlainWire(t.wire) && t.drains <= 1 && (t.writable || t.state == Opening <==> t.drains == 0))
  }

  ghost predicate UpgradeOk(s: State) {
    var t := s.transport;
    match s.upgrade
    case NoUpgrade => !s.upgrading && PlainWire(t.wire)
    case Abandoned => !s.upgrading && t.kind == Polling
    case UpgradeFailed => t.kind == Polling
    case Probing(p) =>
      && !s.upgrading && s.handshaken && t.kind == Polling
      && p.kind == WebSocket && (p.state == Opening || p.state == Open)
      && p.wire == (if p.state == Open then [Probe] else [])
    case Switching(p) =>
      && s.upgrading && s.handshaken && t.kind == Polling && t.state == Pausing
      && p.kind == WebSocket && p.state == Open && p.wire == [Probe]
    case Upgraded(previous) =>
      && !s.upgrading && s.handshaken && t.kind == WebSocket && t.state == Open && UpgradedWire(t.wire)
      && previous.kind == Polling && previous.state == Paused && previous.drains == 0 && PlainWire(previous.wire)
  }

  ghost predicate PauseOk(s: State) {
    && (s.waitDrain ==> s.upgrading && !s.transport.writable && s.transport.state == Pausing)
    && (s.waitPoll ==> s.upgrading && s.transport.state == Pausing)
    && (s.upgrading && !s.waitDrain ==> s.transport.writable)
    && (s.upgrade.Switching? ==> s.waitPoll || s.waitDrain)
  }

  ghost predicate CloseOk(s: State) {
    && (s.closeOnUpgrade ==>
          s.handshaken && s.upgrading && s.prevBufferLen == 0 && (!s.reopened ==> s.writeBuffer == []))
    && (s.closeOnDrain || s.closeOnUpgrade ==> s.reopened || s.readyState == SocketClosing)
    && s.closeReason == NotClosed && s.lost == [] && (s.reopened ==> s.handshaken)
  }

  /** A closed socket lost what it had not handed over; that is nothing if the
      user closed it, unless a handshake had reopened it in between. */
  ghost predicate ClosedOk(s: State) {
    && s.handed + s.lost == s.accepted && Sent(s) == s.handed
    && s.closeReason != NotClosed
    && (s.closeReason == Requested && !s.reopened ==> s.lost == [])
  }

  /** What holds in every state that can be reached. */
  ghost predicate Reachable(s: State) {
    && !s.sendThrew
    && if s.readyState == SocketClosed then ClosedOk(s)
       else ExactlyOnce(s) && NothingIdle(s) && TransportOk(s) && UpgradeOk(s) && PauseOk(s) && CloseOk(s)
  }

  lemma {:induction false} FromBufferOnlyAppend(a: seq<Wire>, b: seq<Wire>)
    ensures FromBufferOnly(a + b) == FromBufferOnly(a) + FromBufferOnly(b)
  {
    if b == [] {
      assert a + b == a;
    } else {
      assert (a + b)[..|a + b| - 1] == a + b[..|b| - 1];
      FromBufferOnlyAppend(a, b[..|b| - 1]);
    }
  }

  lemma {:induction false} FromBufferOnlyOfPackets(ps: seq<Packet>)
    ensures FromBufferOnly(FromBuffers(ps)) == ps && PlainWire(FromBuffers(ps))
  {
    if ps != [] {
      FromBufferOnlyOfPackets(ps[..|ps| - 1]);
      assert FromBuffers(ps)[..|ps| - 1] == FromBuffers(ps[..|ps| - 1]);
      assert ps == ps[..|ps| - 1] + [ps[|ps| - 1]];
    }
  }

  /** The parts of `Reachable` that an open socket keeps at every moment. */
  ghost predicate Steady(s: State) {
    && s.readyState != SocketClosed && !s.sendThrew
    && ExactlyOnce(s) && TransportOk(s) && UpgradeOk(s) && CloseOk(s)
  }

  lemma FlushKeeps(s: State)
    requires Steady(s) && PauseOk(s)
    ensures Reachable(Flush(s)) && Flush(s).readyState == s.readyState
  {
    hide FromBufferOnly;
    if s.transport.writable && !s.upgrading && s.writeBuffer != [] {
      FromBufferOnlyOfPackets(s.writeBuffer);
      FromBufferOnlyAppend(s.transport.wire, FromBuffers(s.writeBuffer));
      assert s.writeBuffer[0..] == s.writeBuffer;
      assert s.writeBuffer[|s.writeBuffer|..] == [];
      if s.upgrade.Upgraded? {
        var wire := s.transport.wire + FromBuffers(s.writeBuffer);
        assert wire[2..] == s.transport.wire[2..] + FromBuffers(s.writeBuffer);
      }
    }
  }

  lemma SendKeeps(s: State, p: Packet)
    requires Reachable(s) && s.readyState != SocketClosed
    ensures Reachable(SendPacket(s, p))
  {
    hide FromBufferOnly, Flush;
    if s.readyState != SocketClosing {
      var s' := s.(writeBuffer := s.writeBuffer + [p], accepted := s.accepted + [p]);
      assert s'.writeBuffer[s.prevBufferLen..] == s.writeBuffer[s.prevBufferLen..] + [p];
      FlushKeeps(s');
    }
  }

  /** The state between the completion of a write and what the socket does next:
      the packets that were in flight are dropped from the buffer. */
  function Trimmed(s: State): State
    requires s.transport.drains > 0 && s.prevBufferLen <= |s.writeBuffer|
  {
    s.(transport := s.transport.(writable := true, drains := s.transport.drains - 1),
       writeBuffer := s.writeBuffer[s.prevBufferLen..], prevBufferLen := 0)
  }

  lemma TrimmedIsSteady(s: State)
    requires Reachable(s) && s.readyState != SocketClosed && s.transport.drains > 0
    ensures Steady(Trimmed(s))
  {
    hide FromBufferOnly, PlainWire, UpgradedWire;
    assert Trimmed(s).writeBuffer[0..] == Trimmed(s).writeBuffer;
  }

  /** The transport changes, with nothing in flight on the old one. */
  lemma PauseDoneKeeps(s: State)
    requires Steady(s) && s.upgrading && s.transport.state == Pausing
    requires !s.waitPoll && !s.waitDrain && s.transport.writable
    ensures Reachable(PauseDone(s))
  {
    hide FromBufferOnly, Flush;
    if s.upgrade.Switching? {
      var paused := s.transport.(state := Paused);
      var t := Write(s.upgrade.probe, [UpgradeMark]);
      assert t.wire == [Probe, UpgradeMark] && t.wire[2..] == [];
      SwitchSendsNothing();
      assert FromBufferOnly(paused.wire) + [] == FromBufferOnly(paused.wire);
      var switched := s.(transport := t, upgrade := Upgraded(paused));
      if s.closeOnUpgrade {
        FlushWhenClosed(UpgradeSettled(switched).(upgrading := false));
      } else {
        FlushKeeps(switched.(upgrading := false));
      }
    }
  }

  lemma SwitchSendsNothing()
    ensures FromBufferOnly([Probe, UpgradeMark]) == []
  {
    assert [Probe, UpgradeMark][..1] == [Probe];
    assert [Probe][..0] == [];
  }

  lemma DrainKeeps(s: State)
    requires Reachable(s) && s.readyState != SocketClosed && s.transport.drains > 0
    ensures Reachable(TransportDrained(s))
  {
    hide FromBufferOnly, Flush, PauseDone;
    TrimmedIsSteady(s);
    var s1 := Trimmed(s);
    if !s.upgrading {
      if s1.writeBuffer != [] { FlushKeeps(s1); }
    } else {
      var s2 := if s1.writeBuffer == [] then SocketDrained(s1) else s1;
      assert s.waitDrain;
      FlushWhileUpgrading(s1);
      if !s.waitPoll { PauseDoneKeeps(s2.(waitDrain := false)); }
    }
  }

  lemma FlushWhileUpgrading(s: State)
    requires s.upgrading
    ensures Flush(s) == s
  {
  }

  lemma FlushWhenClosed(s: State)
    requires s.readyState == SocketClosed
    ensures Flush(s) == s
  {
  }

  lemma PollKeeps(s: State)
    requires Reachable(s) && s.readyState != SocketClosed
    requires s.transport.kind == Polling && s.transport.polling && s.transport.state in {Open, Pausing}
    ensures Reachable(PollDone(s))
  {
    hide FromBufferOnly, PauseDone;
    if s.waitPoll && !s.waitDrain {
      PauseDoneKeeps(s.(transport := s.transport.(polling := false), waitPoll := false));
    }
  }

  lemma HandshakeKeeps(s: State, probe: bool)
    requires Reachable(s) && s.readyState != SocketClosed && !s.handshaken && s.transport.state == Open
    ensures Reachable(OnHandshake(s, probe))
  {
    hide FromBufferOnly;
    FlushKeeps(s.(readyState := SocketOpen, handshaken := true, reopened := s.readyState == SocketClosing));
  }

  lemma PauseKeeps(s: State)
    requires Reachable(s) && s.readyState != SocketClosed
    ensures Reachable(OnProbePong(s))
  {
    hide FromBufferOnly, PauseDone;
    if !(s.upgrade.Probing? && s.upgrade.probe.state == Open) { return; }
    var s' := s.(upgrading := true, upgrade := Switching(s.upgrade.probe),
                 transport := s.transport.(state := Pausing),
                 waitPoll := s.transport.polling, waitDrain := !s.transport.writable);
    if !s'.waitPoll && !s'.waitDrain { PauseDoneKeeps(s'); }
  }

  lemma ProbeStepKeeps(s: State, e: Event)
    requires Reachable(s) && s.readyState != SocketClosed
    requires e in {ProbeOpened, ProbeDrain, ProbeBadReply, ProbeFailed}
    ensures Reachable(Step(s, e))
  {
    hide FromBufferOnly;
    assert [] + [Probe] == [Probe];
  }

  lemma CloseStepKeeps(s: State, e: Event)
    requires Reachable(s) && s.readyState != SocketClosed
    requires e in {TransportOpened, Close, TransportFailed}
    ensures Reachable(Step(s, e))
  {
    hide FromBufferOnly;
  }

  /** Every step keeps the invariant. */
  lemma StepKeeps(s: State, e: Event)
    requires Reachable(s)
    ensures Reachable(Step(s, e))
  {
    hide Reachable, TransportDrained, PollDone, OnHandshake, SendPacket, CloseSocket, OnClose, OnTransportOpened,
         OnProbeOpened, OnProbeDrain, OnProbePong, OnProbeBadReply, OnProbeFailed;
    if s.readyState != SocketClosed {
      match e
      case Send(p) => SendKeeps(s, p);
      case Handshake(probe) => if !s.handshaken && s.transport.state == Open { HandshakeKeeps(s, probe); }
      case PollComplete =>
        if s.transport.kind == Polling && s.transport.polling && s.transport.state in {Open, Pausing} { PollKeeps(s); }
      case Drain => if s.transport.drains > 0 { DrainKeeps(s); }
      case ProbePong => PauseKeeps(s);
      case TransportOpened => CloseStepKeeps(s, e);
      case Close => CloseStepKeeps(s, e);
      case TransportFailed => CloseStepKeeps(s, e);
      case _ => ProbeStepKeeps(s, e);
    }
  }

  lemma InitialIsReachable(kind: Kind)
    ensures Reachable(Initial(kind))
  {
  }

  lemma {:induction false} RunIsReachable(kind: Kind, events: seq<Event>)
    ensures Reachable(Run(Initial(kind), events))
  {
    hide Step, Reachable;
    if events == [] {
      InitialIsReachable(kind);
    } else {
      RunIsReachable(kind, events[..|events| - 1]);
      StepKeeps(Run(Initial(kind), events[..|events| - 1]), events[|events| - 1]);
    }
  }

  // ---------- what every run guarantees ----------

  /** The packets a step accepts: what is sent before any closing. */
  function AcceptedBy(s: State, e: Event): seq<Packet> {
    if e.Send? && (s.readyState == SocketOpening || s.readyState == SocketOpen) then [e.packet] else []
  }

  function Accepted(kind: Kind, events: seq<Event>): seq<Packet> {
    if events == [] then [] else
      var front := events[..|events| - 1];
      Accepted(kind, front) + AcceptedBy(Run(Initial(kind), front), events[|events| - 1])
  }

  lemma StepAccepts(s: State, e: Event)
    ensures Step(s, e).accepted == s.accepted + AcceptedBy(s, e)
  {
    hide TransportDrained, PollDone, OnHandshake, CloseSocket, OnClose, OnTransportOpened,
         OnProbeOpened, OnProbeDrain, OnProbePong, OnProbeBadReply, OnProbeFailed, Flush;
  }

  lemma {:induction false} RunAccepts(kind: Kind, events: seq<Event>)
    ensures Run(Initial(kind), events).accepted == Accepted(kind, events)
  {
    hide Step, AcceptedBy;
    if events != [] {
      RunAccepts(kind, events[..|events| - 1]);
      StepAccepts(Run(Initial(kind), events[..|events| - 1]), events[|events| - 1]);
    }
  }

  /** Exactly once and in order, in every state of every run that is not closed:
      what the transports have sent, followed by the buffer without the packets
      in flight, is what was accepted. Nothing is in flight on a writable
      transport, no transport is used before it is open or while it pauses, and
      after the handshake nothing waits for an idle transport. */
  lemma SentExactlyOnce(kind: Kind, events: seq<Event>)
    ensures var s := Run(Initial(kind), events);
            && !s.sendThrew
            && (s.readyState != SocketClosed ==>
                 && s.prevBufferLen <= |s.writeBuffer|
                 && Sent(s) + s.writeBuffer[s.prevBufferLen..] == Accepted(kind, events)
                 && (s.prevBufferLen > 0 ==> !s.transport.writable)
                 && (s.handshaken && !s.upgrading && s.transport.writable ==> s.writeBuffer == []))
  {
    hide Run, Accepted, FromBufferOnly;
    RunIsReachable(kind, events);
    RunAccepts(kind, events);
  }

  /** An upgrade loses, doubles and reorders nothing: the old transport has
      completed all its writes, the new one starts with the probe and the
      upgrade packet, and together they carry what was handed over. */
  lemma UpgradeKeepsOrder(kind: Kind, events: seq<Event>)
    ensures var s := Run(Initial(kind), events);
            s.readyState != SocketClosed && s.upgrade.Upgraded? ==>
              && s.prevBufferLen <= |s.writeBuffer|
              && s.upgrade.previous.drains == 0 && PlainWire(s.upgrade.previous.wire)
              && UpgradedWire(s.transport.wire)
              && FromBufferOnly(s.upgrade.previous.wire) + FromBufferOnly(s.transport.wire)
                 + s.writeBuffer[s.prevBufferLen..] == Accepted(kind, events)
  {
    hide Run, Accepted, FromBufferOnly;
    RunIsReachable(kind, events);
    RunAccepts(kind, events);
  }

  /** A closed socket: what was handed over and what was lost are what was
      accepted. Nothing is lost when the user closes it, unless the handshake
      came after the call and reopened it. */
  lemma CloseLosesNothing(kind: Kind, events: seq<Event>)
    ensures var s := Run(Initial(kind), events);
            s.readyState == SocketClosed ==>
              && Sent(s) == s.handed && s.handed + s.lost == Accepted(kind, events)
              && (s.closeReason == Requested && !s.reopened ==> s.handed == Accepted(kind, events))
  {
    hide Run, Accepted, FromBufferOnly;
    RunIsReachable(kind, events);
    RunAccepts(kind, events);
  }

  /** What a step from `s` to `r` loses, if it closes the socket. */
  ghost predicate LosesExactly(s: State, e: Event, r: State)
    requires s.prevBufferLen <= |s.writeBuffer|
  {
    r.readyState == SocketClosed ==>
      match r.closeReason
      case TransportLost => e == TransportFailed && r.lost == s.writeBuffer[s.prevBufferLen..]
      case Requested => r.lost == if s.closeOnUpgrade then s.writeBuffer else []
      case NotClosed => false
  }

  /** The switch closes the socket if the close has waited for it. */
  lemma SwitchLosesExactly(s: State)
    requires s.readyState != SocketClosed && s.prevBufferLen <= |s.writeBuffer|
    requires s.closeOnUpgrade ==> s.prevBufferLen == 0
    ensures var r := PauseDone(s);
            r.readyState == SocketClosed ==> s.closeOnUpgrade && r.closeReason == Requested && r.lost == s.writeBuffer
  {
    hide FromBuffers, Write;
  }

  lemma DrainLosesExactly(s: State)
    requires Reachable(s) && s.readyState != SocketClosed && s.transport.drains > 0
    ensures LosesExactly(s, Drain, TransportDrained(s))
  {
    hide FromBufferOnly, FromBuffers, PlainWire, UpgradedWire, Write, PauseDone;
    var s' := OnDrain(s.(transport := s.transport.(writable := true, drains := s.transport.drains - 1)));
    if s.waitDrain && !s.waitPoll { SwitchLosesExactly(s'.(waitDrain := false)); }
  }

  lemma PollLosesExactly(s: State)
    requires Reachable(s) && s.readyState != SocketClosed
    ensures LosesExactly(s, PollComplete, PollDone(s))
  {
    hide FromBufferOnly, PlainWire, UpgradedWire, Write, PauseDone;
    if s.waitPoll && !s.waitDrain {
      SwitchLosesExactly(s.(transport := s.transport.(polling := false), waitPoll := false));
    }
  }

  lemma AnswerLosesExactly(s: State)
    requires Reachable(s) && s.readyState != SocketClosed
    ensures LosesExactly(s, ProbePong, OnProbePong(s))
  {
    hide FromBufferOnly, PlainWire, UpgradedWire, Write, PauseDone;
    if s.upgrade.Probing? && s.upgrade.probe.state == Open {
      SwitchLosesExactly(s.(upgrading := true, upgrade := Switching(s.upgrade.probe),
                            transport := s.transport.(state := Pausing),
                            waitPoll := s.transport.polling, waitDrain := !s.transport.writable));
    }
  }

  lemma StepLosesExactly(s: State, e: Event)
    requires Reachable(s) && s.readyState != SocketClosed
    ensures LosesExactly(s, e, Step(s, e))
  {
    hide FromBufferOnly, FromBuffers, PlainWire, UpgradedWire, Write, TransportDrained, PollDone, OnProbePong;
    match e {
      case Drain => if s.transport.drains > 0 { DrainLosesExactly(s); }
      case PollComplete => PollLosesExactly(s);
      case ProbePong => AnswerLosesExactly(s);
      case _ =>
    }
  }

  /** What the step that closes a socket loses, exactly: when the transport is
      lost, all that was not handed over; when the user has closed it, nothing,
      unless the close waits for the upgrade and packets wait too. */
  lemma CloseLosesExactly(kind: Kind, events: seq<Event>, e: Event)
    ensures var s := Run(Initial(kind), events);
            var r := Step(s, e);
            s.readyState != SocketClosed && r.readyState == SocketClosed ==>
              && s.prevBufferLen <= |s.writeBuffer|
              && (r.closeReason == Requested ==> (r.lost == [] <==> !(s.closeOnUpgrade && s.writeBuffer != [])))
              && r.lost == (if e == TransportFailed then s.writeBuffer[s.prevBufferLen..]
                            else if s.closeOnUpgrade then s.writeBuffer
                            else [])
              && (r.closeReason == TransportLost <==> e == TransportFailed)
  {
    hide Run, Step, FromBufferOnly, PlainWire, UpgradedWire;
    var s := Run(Initial(kind), events);
    if s.readyState != SocketClosed {
      RunIsReachable(kind, events);
      StepLosesExactly(s, e);
      FailureIsTransportLost(s);
    }
  }

  lemma FailureIsTransportLost(s: State)
    requires s.readyState != SocketClosed
    ensures Step(s, TransportFailed).closeReason == TransportLost
  {
  }

  /** A close that was asked for waits for something that is still to happen. */
  ghost predicate ClosePending(s: State) {
    s.readyState == SocketClosing ==>
      (s.closeOnDrain && s.writeBuffer != []) || (s.closeOnUpgrade && s.upgrading)
  }

  lemma StepKeepsClosePending(s: State, e: Event)
    requires Reachable(s) && ClosePending(s)
    ensures ClosePending(Step(s, e))
  {
    hide FromBufferOnly, FromBuffers, PlainWire, UpgradedWire, Write, TransportDrained;
    if e == Drain && s.readyState != SocketClosed && s.transport.drains > 0 { DrainKeepsClosePending(s); }
  }

  lemma DrainKeepsClosePending(s: State)
    requires Reachable(s) && ClosePending(s) && s.readyState != SocketClosed && s.transport.drains > 0
    ensures ClosePending(TransportDrained(s))
  {
    hide FromBufferOnly, FromBuffers, PlainWire, UpgradedWire, Write;
  }

  /** In every reachable state: a socket that is closing waits for its buffer to
      drain, which is not empty, or for an upgrade that is under way. So a close
      of an idle socket is carried out at once. */
  lemma {:induction false} ClosingIsPending(kind: Kind, events: seq<Event>)
    ensures ClosePending(Run(Initial(kind), events))
  {
    hide Step, ClosePending;
    if events == [] {
      assert ClosePending(Initial(kind)) by { InitialIsPending(kind); }
    } else {
      ClosingIsPending(kind, events[..|events| - 1]);
      RunIsReachable(kind, events[..|events| - 1]);
      StepKeepsClosePending(Run(Initial(kind), events[..|events| - 1]), events[|events| - 1]);
    }
  }

  lemma InitialIsPending(kind: Kind)
    ensures ClosePending(Initial(kind)) && Polls(Initial(kind)) && InOrder(Initial(kind))
    ensures Initial(kind).readyState == SocketOpening
  {
  }

  /** A socket is open from the handshake on, and one that is closed keeps no
      packets and no probe. A transport that may be written to is open, and a close
      waits for a drain only while there is something to drain. */
  ghost predicate InOrder(s: State) {
    && (s.readyState == SocketOpening ==> !s.handshaken)
    && (s.readyState == SocketOpen ==> s.handshaken)
    && (s.readyState == SocketClosed ==>
          s.writeBuffer == [] && s.prevBufferLen == 0 && !s.upgrade.Probing? && !s.upgrade.Switching?)
    && (s.readyState != SocketClosed && s.transport.writable && !s.upgrading ==> s.transport.state == Open)
    && (s.readyState != SocketClosed && s.closeOnDrain ==> s.writeBuffer != [])
  }

  lemma StepKeepsInOrder(s: State, e: Event)
    requires Reachable(s) && InOrder(s)
    ensures InOrder(Step(s, e))
  {
    hide FromBufferOnly, FromBuffers, PlainWire, UpgradedWire, TransportDrained;
    if e == Drain && s.readyState != SocketClosed && s.transport.drains > 0 { DrainKeepsInOrder(s); }
  }

  lemma DrainKeepsInOrder(s: State)
    requires Reachable(s) && InOrder(s) && s.readyState != SocketClosed && s.transport.drains > 0
    ensures InOrder(TransportDrained(s))
  {
    hide FromBufferOnly, FromBuffers, PlainWire, UpgradedWire, Flush, PauseDone;
    var s1 := Trimmed(s);
    if s.upgrading {
      FlushWhileUpgrading(s1);
      var s2 := if s1.writeBuffer == [] then SocketDrained(s1) else s1;
      assert TransportDrained(s) ==
             if s.waitPoll then s2.(waitDrain := false) else PauseDone(s2.(waitDrain := false));
      PauseDoneKeepsInOrder(s2.(waitDrain := false));
    } else if s1.writeBuffer != [] {
      FlushKeepsInOrder(s1);
    }
  }

  lemma FlushKeepsInOrder(s: State)
    requires InOrder(s)
    ensures InOrder(Flush(s))
  {
    hide FromBuffers;
  }

  lemma PauseDoneKeepsInOrder(s: State)
    requires InOrder(s) && s.upgrading
    ensures InOrder(PauseDone(s))
  {
    hide Flush;
    if s.upgrade.Switching? && s.readyState != SocketClosed {
      var t := s.transport.(state := Paused);
      var switched := s.(transport := Write(s.upgrade.probe, [UpgradeMark]), upgrade := Upgraded(t));
      FlushKeepsInOrder(UpgradeSettled(switched).(upgrading := false));
    }
  }

  lemma {:induction false} AlwaysInOrder(kind: Kind, events: seq<Event>)
    ensures InOrder(Run(Initial(kind), events))
  {
    hide Step, InOrder;
    if events == [] {
      assert InOrder(Initial(kind)) by { InitialIsPending(kind); }
    } else {
      AlwaysInOrder(kind, events[..|events| - 1]);
      RunIsReachable(kind, events[..|events| - 1]);
      StepKeepsInOrder(Run(Initial(kind), events[..|events| - 1]), events[|events| - 1]);
    }
  }

  /** What `close` does in every reachable state: at once if nothing waits and no
      upgrade is under way; else it waits, for the buffer first. A second one is
      ignored. */
  lemma CloseClosesOrWaits(kind: Kind, events: seq<Event>)
    requires Run(Initial(kind), events).readyState != SocketClosed
    ensures var s := Run(Initial(kind), events);
            var r := Step(s, Close);
            if s.readyState == SocketClosing then r == s
            else if s.writeBuffer != [] then r == s.(readyState := SocketClosing, closeOnDrain := true)
            else if s.upgrading then r == s.(readyState := SocketClosing, closeOnUpgrade := true)
            else r.readyState == SocketClosed && r.closeReason == Requested && r.lost == []
  {
    hide Run, FromBufferOnly, PlainWire, UpgradedWire;
    RunIsReachable(kind, events);
  }

  /** A batch is one more write, of the whole buffer. */
  lemma SendIsOneWrite(s: State, p: Packet)
    requires Reachable(s) && s.readyState in {SocketOpening, SocketOpen}
    ensures var r, t := Step(s, Send(p)), s.transport;
            && r.writeBuffer == s.writeBuffer + [p]
            && r.transport ==
               if t.writable && !s.upgrading
               then Transport(t.kind, Open, false, t.polling, t.drains + 1, t.wire + FromBuffers(r.writeBuffer))
               else t
  {
    hide FromBufferOnly, FromBuffers, PlainWire, UpgradedWire;
  }

  /** The handshake opens the socket, sends what waits, and probes if it is told to
      and there is something to upgrade. */
  lemma HandshakeOpens(s: State, probe: bool)
    requires Reachable(s) && s.readyState != SocketClosed && !s.handshaken && s.transport.state == Open
    ensures var r := Step(s, Handshake(probe));
            && r.readyState == SocketOpen && r.handshaken && r.writeBuffer == s.writeBuffer
            && (s.transport.writable ==> r.prevBufferLen == |s.writeBuffer|)
            && (r.upgrade ==
                if probe && s.transport.kind == Polling then Probing(NewTransport(WebSocket)) else s.upgrade)
  {
    hide FromBufferOnly, FromBuffers, PlainWire, UpgradedWire;
  }

  /** A completed write: what was in flight leaves the buffer, and the rest is sent
      at once, unless an upgrade is under way. */
  lemma DrainSendsRest(s: State)
    requires Reachable(s) && s.readyState != SocketClosed && !s.upgrading && s.transport.drains > 0
    ensures var r, rest := Step(s, Drain), s.writeBuffer[s.prevBufferLen..];
            && r.transport.drains == s.transport.drains - 1 + (if rest == [] then 0 else 1)
            && (rest != [] ==> r.writeBuffer == rest && r.prevBufferLen == |rest| && r.readyState == s.readyState)
            && (rest == [] ==> r.writeBuffer == [] && r.prevBufferLen == 0
                               && r.readyState == if s.closeOnDrain then SocketClosed else s.readyState)
  {
    hide FromBufferOnly, FromBuffers, PlainWire, UpgradedWire;
  }

  /** The old transport has paused when the poll and the write it waits for have
      ended, in either order; the last of the two makes the switch, and a close that
      waits for it. */
  lemma PauseEndsInSwitch(s: State, e: Event)
    requires Reachable(s) && s.readyState != SocketClosed && s.upgrade.Switching?
    requires (e == PollComplete && s.waitPoll && s.transport.polling)
             || (e == Drain && s.waitDrain && s.transport.drains > 0)
    ensures var r := Step(s, e);
            if s.waitPoll && s.waitDrain then
              r.upgrade == s.upgrade && r.waitPoll != r.waitDrain && r.waitDrain == (e == PollComplete)
            else
              && r.upgrade.Upgraded? && !r.upgrading
              && r.transport.kind == WebSocket && r.transport.wire[..2] == [Probe, UpgradeMark]
              && (s.closeOnUpgrade ==> r.readyState == SocketClosed)
              && (!s.closeOnUpgrade && !s.closeOnDrain ==> r.readyState == s.readyState)
  {
    hide FromBufferOnly, FromBuffers, PlainWire, UpgradedWire;
  }

  /** A completed write of the probing transport makes it writable again, before
      and after the answer. */
  lemma ProbeWriteCompletes(s: State)
    requires s.readyState != SocketClosed && (s.upgrade.Probing? || s.upgrade.Switching?)
    ensures var r := Step(s, ProbeDrain);
            && r == s.(upgrade := r.upgrade)
            && (r.upgrade.Probing? <==> s.upgrade.Probing?) && (r.upgrade.Switching? <==> s.upgrade.Switching?)
            && var probe, before := r.upgrade.probe, s.upgrade.probe;
               if before.drains == 0 then probe == before
               else probe.writable && probe.drains == before.drains - 1 && probe.wire == before.wire
                    && probe.kind == before.kind && probe.state == before.state
  {
    hide SendPacket, OnTransportOpened, OnHandshake, PollDone, TransportDrained, CloseSocket, OnClose,
         OnProbeOpened, OnProbePong, OnProbeBadReply, OnProbeFailed, FromBuffers;
    var t := s.upgrade.probe;
    var after := if t.drains > 0 then t.(writable := true, drains := t.drains - 1) else t;
    assert OnProbeDrain(s) == s.(upgrade := if s.upgrade.Probing? then Probing(after) else Switching(after));
    assert Step(s, ProbeDrain) == OnProbeDrain(s);
  }

  /** A wrong answer to the probe abandons the upgrade; the socket goes on with its
      transport. */
  lemma WrongAnswerAbandons(kind: Kind, events: seq<Event>)
    requires var s := Run(Initial(kind), events); s.readyState != SocketClosed && s.upgrade.Probing?
    ensures var s := Run(Initial(kind), events);
            Step(s, ProbeBadReply) ==
            if s.upgrade.probe.state == Opening then s else s.(upgrade := Abandoned)
  {
    hide Run, FromBufferOnly, PlainWire, UpgradedWire;
    RunIsReachable(kind, events);
  }

  /** A polling transport has a poll under way, unless a pause ends it. */
  ghost predicate Polls(s: State) {
    s.readyState != SocketClosed && s.transport.kind == Polling ==>
      (s.transport.polling <==> s.transport.state in {Opening, Open} || (s.transport.state == Pausing && s.waitPoll))
  }

  lemma StepKeepsPolls(s: State, e: Event)
    requires Reachable(s) && Polls(s)
    ensures Polls(Step(s, e))
  {
    hide FromBufferOnly, FromBuffers, PlainWire, UpgradedWire, TransportDrained;
    if e == Drain && s.readyState != SocketClosed && s.transport.drains > 0 { DrainKeepsPolls(s); }
  }

  lemma DrainKeepsPolls(s: State)
    requires Reachable(s) && Polls(s) && s.readyState != SocketClosed && s.transport.drains > 0
    ensures Polls(TransportDrained(s))
  {
    hide FromBufferOnly, FromBuffers, PlainWire, UpgradedWire;
  }

  /** In every reachable state a completed poll is followed by the next one. */
  lemma {:induction false} AlwaysPolls(kind: Kind, events: seq<Event>)
    ensures Polls(Run(Initial(kind), events))
  {
    hide Step, Polls;
    if events == [] {
      assert Polls(Initial(kind)) by { InitialIsPending(kind); }
    } else {
      AlwaysPolls(kind, events[..|events| - 1]);
      RunIsReachable(kind, events[..|events| - 1]);
      StepKeepsPolls(Run(Initial(kind), events[..|events| - 1]), events[|events| - 1]);
    }
  }

  lemma RunAppend(s: State, events: seq<Event>, e: Event)
    ensures Run(s, events + [e]) == Step(Run(s, events), e)
  {
    assert (events + [e])[..|events|] == events;
  }

  /** Opening: a packet is buffered, the user closes, the transport opens. */
  function ClosedWhileOpening(p: Packet): State {
    var s := Initial(Polling);
    s.(writeBuffer := [p], accepted := [p], readyState := SocketClosing, closeOnDrain := true,
       transport := s.transport.(state := Open, writable := true))
  }

  /** The handshake reopened it; the packet is in flight while the upgrade,
      already answered, waits for the poll and the write. */
  function ReopenedAndSwitching(p: Packet): State {
    ClosedWhileOpening(p).(
      readyState := SocketOpen, handshaken := true, reopened := true, upgrading := true,
      prevBufferLen := 1, handed := [p], waitPoll := true, waitDrain := true,
      transport := Transport(Polling, Pausing, false, true, 1, [FromBuffer(p)]),
      upgrade := Switching(Transport(WebSocket, Open, false, false, 1, [Probe])))
  }

  lemma ReopenSteps(p: Packet)
    ensures var s := Initial(Polling);
            Step(Step(Step(s, Send(p)), Close), TransportOpened) == ClosedWhileOpening(p)
  {
    assert [] + [p] == [p];
  }

  lemma HandshakeStep(p: Packet)
    ensures Step(ClosedWhileOpening(p), Handshake(true)) == ReopenedAndSwitching(p).(
              upgrading := false, waitPoll := false, waitDrain := false, upgrade := Probing(NewTransport(WebSocket)),
              transport := Transport(Polling, Open, false, true, 1, [FromBuffer(p)]))
  {
    assert FromBuffers([p]) == [FromBuffer(p)] && [] + [FromBuffer(p)] == [FromBuffer(p)];
    assert [] + [p] == [p];
  }

  lemma SwitchSteps(p: Packet)
    ensures Step(Step(Step(ClosedWhileOpening(p), Handshake(true)), ProbeOpened), ProbePong) == ReopenedAndSwitching(p)
  {
    HandshakeStep(p);
    var s := Step(ClosedWhileOpening(p), Handshake(true));
    assert [] + [Probe] == [Probe];
    assert Step(s, ProbeOpened) ==
           s.(upgrade := Probing(Write(NewTransport(WebSocket).(state := Open), [Probe])));
  }

  lemma LoseSteps(p: Packet, q: Packet)
    ensures var s := Step(Step(Step(ReopenedAndSwitching(p), Drain), Send(q)), PollComplete);
            s.closeReason == Requested && s.lost == [q] && s.handed == [p] && s.accepted == [p, q]
  {
    var s := Step(ReopenedAndSwitching(p), Drain);
    assert [p][1..] == [];
    assert s.writeBuffer == [] && s.closeOnUpgrade && !s.waitDrain && s.waitPoll && s.readyState == SocketOpen;
    var s' := Step(s, Send(q));
    assert [] + [q] == [q] && [p] + [q] == [p, q];
    assert s' == s.(writeBuffer := [q], accepted := [p, q]);
    assert [q][0..] == [q];
  }

  lemma RunThree(s: State, events: seq<Event>, a: Event, b: Event, c: Event)
    ensures Run(s, events + [a, b, c]) == Step(Step(Step(Run(s, events), a), b), c)
  {
    hide Step, Run;
    RunAppend(s, events, a);
    RunAppend(s, events + [a], b);
    RunAppend(s, events + [a] + [b], c);
    assert events + [a, b, c] == events + [a] + [b] + [c];
  }

  /** A handshake after `close` makes the socket accept packets again, and the
      pending close then drops one that was never handed over. */
  lemma ReopenedSocketLosesPacket(p: Packet, q: Packet)
    ensures var events := [Send(p), Close, TransportOpened, Handshake(true), ProbeOpened, ProbePong,
                           Drain, Send(q), PollComplete];
            var s := Run(Initial(Polling), events);
            && s.closeReason == Requested && s.lost == [q]
            && s.handed == [p] && Accepted(Polling, events) == [p, q]
  {
    hide Run, Step, Accepted;
    var s := Initial(Polling);
    var first := [Send(p), Close, TransportOpened];
    var second := first + [Handshake(true), ProbeOpened, ProbePong];
    var third := second + [Drain, Send(q), PollComplete];
    RunOfNothing(s);
    RunThree(s, [], Send(p), Close, TransportOpened);
    assert [] + first == first;
    RunThree(s, first, Handshake(true), ProbeOpened, ProbePong);
    RunThree(s, second, Drain, Send(q), PollComplete);
    ReopenSteps(p);
    SwitchSteps(p);
    LoseSteps(p, q);
    RunAccepts(Polling, third);
    assert third == [Send(p), Close, TransportOpened, Handshake(true), ProbeOpened, ProbePong,
                     Drain, Send(q), PollComplete];
  }

  lemma RunOfNothing(s: State)
    ensures Run(s, []) == s
  {
  }

  // ---------- a failed switch stalls the socket ----------

  /** The probe was answered but failed before the old transport had paused: an
      open socket that takes itself to be upgrading. */
  ghost predicate Stalled(s: State) {
    s.readyState != SocketClosed && s.handshaken && s.upgrading && s.upgrade == UpgradeFailed
  }

  ghost predicate StalledOrClosed(s: State) {
    Stalled(s) || s.readyState == SocketClosed
  }

  lemma StalledStep(s: State, e: Event)
    requires StalledOrClosed(s)
    ensures StalledOrClosed(Step(s, e)) && Step(s, e).handed == s.handed
  {
    hide FromBuffers, Write, Min;
  }

  /** Nothing clears the `upgrading` flag after such a failure: whatever happens
      later, until it is closed and after, the socket hands over no packet. */
  lemma {:induction false} StalledForever(s: State, events: seq<Event>)
    requires StalledOrClosed(s)
    ensures StalledOrClosed(Run(s, events)) && Run(s, events).handed == s.handed
  {
    hide Step, StalledOrClosed;
    if events != [] {
      StalledForever(s, events[..|events| - 1]);
      StalledStep(Run(s, events[..|events| - 1]), events[|events| - 1]);
    }
  }

  /** When a probe fails decides. Before its answer, sending goes on; after it the
      socket stalls, unless a close waits for the upgrade and is now carried out. */
  lemma ProbeFailureStalls(kind: Kind, events: seq<Event>)
    requires var u := Run(Initial(kind), events).upgrade; u.Probing? || u.Switching?
    requires Run(Initial(kind), events).readyState != SocketClosed
    ensures var s := Run(Initial(kind), events);
            var r := Step(s, ProbeFailed);
            && (Stalled(r) <==> s.upgrade.Switching? && !s.closeOnUpgrade)
            && (r.readyState == SocketClosed <==> s.closeOnUpgrade)
            && (r.readyState == SocketClosed ==> r.closeReason == Requested)
            && (r.readyState != SocketClosed ==> r == s.(upgrade := UpgradeFailed))
  {
    hide Run, FromBufferOnly;
    RunIsReachable(kind, events);
  }
}

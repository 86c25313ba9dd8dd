/** The file events of the event loop: the table of registered descriptors with
    its running maximum, and the dispatch of fired events (ae.c). */
module AeFiles {
  import opened Js

  /** Bit 0 is readable, bit 1 is writable. */
  type Mask = bv2

  const NONE: Mask := 0
  const READABLE: Mask := 1
  const WRITABLE: Mask := 2

  type Proc = int

  datatype FileEvent = FileEvent(mask: Mask, rfileProc: Proc, wfileProc: Proc, clientData: int)

  const UNREGISTERED := FileEvent(NONE, 0, 0, 0)

  /** The table, one slot for each descriptor it can hold, and `maxfd`. */
  datatype Loop = Loop(table: seq<FileEvent>, maxfd: int)

  predicate Registered(l: Loop, fd: int) {
    0 <= fd < |l.table| && l.table[fd].mask != NONE
  }

  /** `maxfd` is the largest registered descriptor, or -1. */
  ghost predicate MaxIsExact(l: Loop) {
    && (l.maxfd == -1 || Registered(l, l.maxfd))
    && forall fd :: Registered(l, fd) ==> fd <= l.maxfd
  }

  // ---------- the operations ----------

  function Create(l: Loop, fd: nat, mask: Mask, proc: Proc, data: int): Loop
    requires fd < |l.table|
  {
    var fe := l.table[fd];
    Loop(l.table[fd := FileEvent(fe.mask | mask,
                                 if mask & READABLE != 0 then proc else fe.rfileProc,
                                 if mask & WRITABLE != 0 then proc else fe.wfileProc, data)],
         if fd > l.maxfd then fd else l.maxfd)
  }

  /** The largest registered descriptor below `n`, or -1. */
  function LargestBelow(table: seq<FileEvent>, n: nat): (j: int)
    requires n <= |table|
    ensures -1 <= j < n && (j >= 0 ==> table[j].mask != NONE)
    ensures forall i | j < i < n :: table[i].mask == NONE
  {
    if n == 0 then -1
    else if table[n - 1].mask != NONE then n - 1
    else LargestBelow(table, n - 1)
  }

  function Delete(l: Loop, fd: nat, mask: Mask): Loop
    requires l.maxfd < |l.table|
  {
    if fd >= |l.table| || l.table[fd].mask == NONE then l
    else
      var fe := l.table[fd].(mask := l.table[fd].mask & !mask);
      var table := l.table[fd := fe];
      Loop(table, if fd == l.maxfd && fe.mask == NONE then LargestBelow(table, fd) else l.maxfd)
  }

  /** Refused when a registered descriptor would not fit. */
  function Resize(l: Loop, setsize: nat): Loop
    requires -1 <= l.maxfd < |l.table| && l.maxfd < setsize
  {
    Loop(l.table[..l.maxfd + 1] + seq(setsize - (l.maxfd + 1), _ => UNREGISTERED), l.maxfd)
  }

  /** An operation, with what the polling layer answers. */
  datatype Operation =
    | DoCreate(fd: nat, mask: Mask, proc: Proc, data: int, apiOk: bool)
    | DoDelete(fd: nat, mask: Mask)
    | DoResize(setsize: nat, apiOk: bool)

  predicate Refused(l: Loop, op: Operation) {
    match op
    case DoCreate(fd, _, _, _, apiOk) => fd >= |l.table| || !apiOk
    case DoDelete(_, _) => false
    case DoResize(setsize, apiOk) => setsize != |l.table| && (l.maxfd >= setsize || !apiOk)
  }

  function Apply(l: Loop, op: Operation): Loop
    requires -1 <= l.maxfd < |l.table|
  {
    if Refused(l, op) then l else
      match op
      case DoCreate(fd, mask, proc, data, _) => Create(l, fd, mask, proc, data)
      case DoDelete(fd, mask) => Delete(l, fd, mask)
      case DoResize(setsize, _) => if setsize == |l.table| then l else Resize(l, setsize)
  }

  /** A table of the given size with nothing registered. */
  function Empty(setsize: nat): Loop {
    Loop(seq(setsize, _ => UNREGISTERED), -1)
  }

  /** The event loop object; its table is a buffer that is replaced on resize. */
  class FileLoop {
    var events: array<FileEvent>
    var maxfd: int

    ghost predicate Valid()
      reads this
    {
      -1 <= maxfd < events.Length
    }

    ghost function View(): Loop
      reads this, events
    {
      Loop(events[..], maxfd)
    }

    constructor (setsize: nat)
      ensures Valid() && fresh(events) && View() == Empty(setsize)
    {
      events := new FileEvent[setsize](_ => UNREGISTERED);
      maxfd := -1;
      new;
      assert events[..] == Empty(setsize).table;
    }

    /** `aeCreateFileEvent` */
    method CreateFileEvent(fd: nat, mask: Mask, proc: Proc, data: int, apiOk: bool) returns (ok: bool)
      requires Valid()
      modifies this, events
      ensures Valid() && events == old(events)
      ensures View() == Apply(old(View()), DoCreate(fd, mask, proc, data, apiOk))
      ensures ok <==> !Refused(old(View()), DoCreate(fd, mask, proc, data, apiOk))
    {
      if fd >= events.Length || !apiOk { return false; }
      var fe := events[fd];
      fe := fe.(mask := fe.mask | mask);
      if mask & READABLE != 0 { fe := fe.(rfileProc := proc); }
      if mask & WRITABLE != 0 { fe := fe.(wfileProc := proc); }
      fe := fe.(clientData := data);
      events[fd] := fe;
      if fd > maxfd { maxfd := fd; }
      return true;
    }

    /** `aeDeleteFileEvent`; the maximum is searched downwards. */
    method DeleteFileEvent(fd: nat, mask: Mask)
      requires Valid()
      modifies this, events
      ensures Valid() && events == old(events)
      ensures View() == Apply(old(View()), DoDelete(fd, mask))
    {
      if fd >= events.Length || events[fd].mask == NONE { return; }
      events[fd] := events[fd].(mask := events[fd].mask & !mask);
      if fd == maxfd && events[fd].mask == NONE {
        var j := maxfd - 1;
        while j >= 0 && events[j].mask == NONE
          invariant -1 <= j < fd
          invariant LargestBelow(events[..], j + 1) == LargestBelow(events[..], fd)
        {
          j := j - 1;
        }
        maxfd := j;
      }
    }

    /** `aeResizeSetSize` */
    method ResizeSetSize(setsize: nat, apiOk: bool) returns (ok: bool)
      requires Valid()
      modifies this
      ensures Valid() && (events == old(events) || fresh(events))
      ensures View() == Apply(old(View()), DoResize(setsize, apiOk))
      ensures ok <==> !Refused(old(View()), DoResize(setsize, apiOk))
    {
      if setsize == events.Length { return true; }
      if maxfd >= setsize || !apiOk { return false; }
      var resized := new FileEvent[setsize](i => UNREGISTERED);
      for i := 0 to maxfd + 1
        invariant maxfd == old(maxfd) && events == old(events)
        invariant forall k | 0 <= k < i :: resized[k] == events[k]
        invariant forall k | i <= k < setsize :: resized[k] == UNREGISTERED
      {
        resized[i] := events[i];
      }
      ghost var before := View();
      events := resized;
      assert events[..] == Resize(before, setsize).table;
      return true;
    }

    method Operate(op: Operation)
      requires Valid()
      modifies this, events
      ensures Valid() && (events == old(events) || fresh(events))
      ensures View() == Apply(old(View()), op)
    {
      hide Apply;
      match op {
        case DoCreate(fd, mask, proc, data, apiOk) => var _ := CreateFileEvent(fd, mask, proc, data, apiOk);
        case DoDelete(fd, mask) => DeleteFileEvent(fd, mask);
        case DoResize(setsize, apiOk) => var _ := ResizeSetSize(setsize, apiOk);
      }
    }
  }

  // ---------- the table is a plain map with its exact maximum ----------

  /** The registered descriptors and their masks. */
  function Masks(l: Loop): map<int, Mask> {
    map fd: int | 0 <= fd < |l.table| && l.table[fd].mask != NONE :: l.table[fd].mask
  }

  function MaskOf(m: map<int, Mask>, fd: int): Mask {
    if fd in m then m[fd] else NONE
  }

  function SetMask(m: map<int, Mask>, fd: int, mask: Mask): map<int, Mask> {
    if mask == NONE then m - {fd} else m[fd := mask]
  }

  /** What an operation means for the plain map. */
  function ApplyPlain(m: map<int, Mask>, op: Operation): map<int, Mask> {
    match op
    case DoCreate(fd, mask, _, _, _) => SetMask(m, fd, MaskOf(m, fd) | mask)
    case DoDelete(fd, mask) => SetMask(m, fd, MaskOf(m, fd) & !mask)
    case DoResize(_, _) => m
  }

  /** No registered descriptor is above `maxfd`. */
  ghost predicate Bounded(l: Loop) {
    -1 <= l.maxfd < |l.table| && forall fd :: Registered(l, fd) ==> fd <= l.maxfd
  }

  lemma CreateRefinesPlain(l: Loop, fd: nat, mask: Mask, proc: Proc, data: int)
    requires Bounded(l) && fd < |l.table|
    ensures var r := Create(l, fd, mask, proc, data);
            Masks(r) == SetMask(Masks(l), fd, MaskOf(Masks(l), fd) | mask) && Bounded(r)
  {
    var r := Create(l, fd, mask, proc, data);
    assert forall i | i != fd :: Registered(r, i) <==> Registered(l, i);
  }

  lemma DeleteRefinesPlain(l: Loop, fd: nat, mask: Mask)
    requires Bounded(l)
    ensures var r := Delete(l, fd, mask);
            Masks(r) == SetMask(Masks(l), fd, MaskOf(Masks(l), fd) & !mask) && Bounded(r)
  {
    var r := Delete(l, fd, mask);
    assert forall i | i != fd :: Registered(r, i) <==> Registered(l, i);
    assert Registered(r, fd) ==> Registered(l, fd);
  }

  lemma ResizeRefinesPlain(l: Loop, setsize: nat)
    requires Bounded(l) && l.maxfd < setsize
    ensures Masks(Resize(l, setsize)) == Masks(l) && Bounded(Resize(l, setsize))
  {
    var r := Resize(l, setsize);
    assert forall i :: Registered(r, i) <==> Registered(l, i);
    assert forall i :: i in Masks(l) <==> Registered(l, i);
    assert forall i :: i in Masks(r) <==> Registered(r, i);
  }

  lemma ApplyRefinesPlain(l: Loop, op: Operation)
    requires Bounded(l)
    ensures Masks(Apply(l, op)) == if Refused(l, op) then Masks(l) else ApplyPlain(Masks(l), op)
    ensures Bounded(Apply(l, op))
  {
    hide Create, Delete, Resize, Masks, SetMask, MaskOf;
    if !Refused(l, op) {
      match op
      case DoCreate(fd, mask, proc, data, _) => CreateRefinesPlain(l, fd, mask, proc, data);
      case DoDelete(fd, mask) => DeleteRefinesPlain(l, fd, mask);
      case DoResize(setsize, _) => if setsize != |l.table| { ResizeRefinesPlain(l, setsize); }
    }
  }

  predicate BreaksMax(l: Loop, op: Operation) {
    op.DoCreate? && !Refused(l, op) && op.mask == NONE && op.fd > l.maxfd
  }

  /** Registering with an empty mask is the one operation that can break the
      maximum: it does so exactly for a descriptor above it. */
  lemma ApplyKeepsMax(l: Loop, op: Operation)
    requires -1 <= l.maxfd < |l.table| && MaxIsExact(l)
    ensures MaxIsExact(Apply(l, op)) <==> !BreaksMax(l, op)
  {
    if !Refused(l, op) {
      match op
      case DoCreate(fd, mask, proc, data, _) => CreateKeepsMax(l, fd, mask, proc, data);
      case DoDelete(fd, mask) => DeleteKeepsMax(l, fd, mask);
      case DoResize(setsize, _) => if setsize != |l.table| { ResizeKeepsMax(l, setsize); }
    }
  }

  lemma CreateKeepsMax(l: Loop, fd: nat, mask: Mask, proc: Proc, data: int)
    requires -1 <= l.maxfd < |l.table| && MaxIsExact(l) && fd < |l.table|
    ensures MaxIsExact(Create(l, fd, mask, proc, data)) <==> mask != NONE || fd <= l.maxfd
  {
    var r := Create(l, fd, mask, proc, data);
    assert forall i | i != fd :: Registered(r, i) <==> Registered(l, i);
    OrWithMask(l.table[fd].mask, mask);
    assert Registered(r, fd) <==> Registered(l, fd) || mask != NONE;
  }

  lemma OrWithMask(a: Mask, b: Mask)
    ensures a | b != NONE <==> a != NONE || b != NONE
  {
  }

  lemma DeleteKeepsMax(l: Loop, fd: nat, mask: Mask)
    requires -1 <= l.maxfd < |l.table| && MaxIsExact(l)
    ensures MaxIsExact(Delete(l, fd, mask))
  {
    var r := Delete(l, fd, mask);
    assert forall i | i != fd :: Registered(r, i) <==> Registered(l, i);
    assert Registered(r, fd) ==> Registered(l, fd);
  }

  lemma ResizeKeepsMax(l: Loop, setsize: nat)
    requires -1 <= l.maxfd < |l.table| && MaxIsExact(l) && l.maxfd < setsize
    ensures MaxIsExact(Resize(l, setsize))
  {
    var r := Resize(l, setsize);
    assert forall i :: Registered(r, i) <==> Registered(l, i);
  }

  function Run(setsize: nat, ops: seq<Operation>): (l: Loop)
    ensures Bounded(l)
  {
    if ops == [] then Empty(setsize) else
      var l := Run(setsize, ops[..|ops| - 1]);
      ApplyRefinesPlain(l, ops[|ops| - 1]);
      Apply(l, ops[|ops| - 1])
  }

  /** Over every run the object's table is that of the run. */
  method OperateAll(setsize: nat, ops: seq<Operation>) returns (l: FileLoop)
    ensures l.Valid() && l.View() == Run(setsize, ops)
  {
    hide Apply;
    l := new FileLoop(setsize);
    var i := 0;
    assert ops[..0] == [];
    while i < |ops|
      invariant i <= |ops| && fresh(l) && fresh(l.events) && l.Valid() && l.View() == Run(setsize, ops[..i])
    {
      assert ops[..i + 1][..i] == ops[..i];
      l.Operate(ops[i]);
      i := i + 1;
    }
    assert ops[..i] == ops;
  }

  /** The plain map after the operations that were not refused. */
  function PlainRun(setsize: nat, ops: seq<Operation>): map<int, Mask> {
    if ops == [] then map[] else
      var m := PlainRun(setsize, ops[..|ops| - 1]);
      if Refused(Run(setsize, ops[..|ops| - 1]), ops[|ops| - 1]) then m else ApplyPlain(m, ops[|ops| - 1])
  }

  /** The program never registers for nothing. */
  predicate Sensible(op: Operation) { op.DoCreate? ==> op.mask != NONE }

  lemma {:induction false} RunKeepsMax(setsize: nat, ops: seq<Operation>)
    requires forall i | 0 <= i < |ops| :: Sensible(ops[i])
    ensures MaxIsExact(Run(setsize, ops))
  {
    hide Apply;
    if ops != [] {
      RunKeepsMax(setsize, ops[..|ops| - 1]);
      assert Sensible(ops[|ops| - 1]);
      ApplyKeepsMax(Run(setsize, ops[..|ops| - 1]), ops[|ops| - 1]);
    }
  }

  /** Over every run the table is the plain map and `maxfd` bounds its keys; if
      nothing was registered with an empty mask it is the largest key, or -1. */
  lemma {:induction false} RunIsPlainMap(setsize: nat, ops: seq<Operation>)
    ensures var l, m := Run(setsize, ops), PlainRun(setsize, ops);
            && Masks(l) == m
            && (forall fd | fd in m :: fd <= l.maxfd)
            && ((forall i | 0 <= i < |ops| :: Sensible(ops[i])) ==> if m == map[] then l.maxfd == -1 else l.maxfd in m)
  {
    hide Apply, ApplyPlain, LargestBelow, MaxIsExact, Sensible;
    if ops != [] {
      RunIsPlainMap(setsize, ops[..|ops| - 1]);
      ApplyRefinesPlain(Run(setsize, ops[..|ops| - 1]), ops[|ops| - 1]);
    }
    KeysAreRegistered(Run(setsize, ops));
    if forall i | 0 <= i < |ops| :: Sensible(ops[i]) {
      RunKeepsMax(setsize, ops);
      MasksShowMax(Run(setsize, ops));
    }
  }

  /** The handler last registered for the flag on the descriptor. */
  function LastProc(setsize: nat, ops: seq<Operation>, fd: nat, flag: Mask): Option<Proc> {
    if ops == [] then None else
      var front, last := ops[..|ops| - 1], ops[|ops| - 1];
      if last.DoCreate? && last.fd == fd && last.mask & flag != 0 && !Refused(Run(setsize, front), last)
      then Some(last.proc)
      else LastProc(setsize, front, fd, flag)
  }

  /** Over every run: a descriptor that is registered for a flag has the handler
      that was last registered for it. */
  lemma {:induction false} HandlerIsTheLast(setsize: nat, ops: seq<Operation>, fd: nat, flag: Mask)
    requires fd < |Run(setsize, ops).table| && flag in {1, 2} && Run(setsize, ops).table[fd].mask & flag != 0
    ensures var fe := Run(setsize, ops).table[fd];
            LastProc(setsize, ops, fd, flag) == Some(if flag == 1 then fe.rfileProc else fe.wfileProc)
  {
    hide LargestBelow;
    if ops != [] {
      var front, last := ops[..|ops| - 1], ops[|ops| - 1];
      var l := Run(setsize, front);
      assert Bounded(l);
      if fd < |l.table| && l.table[fd].mask & flag != 0 { HandlerIsTheLast(setsize, front, fd, flag); }
    }
  }

  /** A table that is resized has the new size and the same events; what is new
      is not registered. A refused one is not changed. */
  lemma ResizeKeepsEvents(l: Loop, setsize: nat, apiOk: bool)
    requires Bounded(l)
    ensures var r := Apply(l, DoResize(setsize, apiOk));
            if l.maxfd < setsize && (apiOk || setsize == |l.table|) then
              && |r.table| == setsize && r.maxfd == l.maxfd
              && (forall fd | 0 <= fd <= l.maxfd :: r.table[fd] == l.table[fd])
              && (forall fd | l.maxfd < fd < setsize :: r.table[fd].mask == 0)
            else r == l
  {
    forall fd | l.maxfd < fd < |l.table| ensures l.table[fd].mask == 0 { assert !Registered(l, fd); }
  }

  lemma KeysAreRegistered(l: Loop)
    ensures forall fd :: fd in Masks(l) <==> Registered(l, fd)
  {
  }

  lemma MasksShowMax(l: Loop)
    requires MaxIsExact(l)
    ensures forall fd | fd in Masks(l) :: fd <= l.maxfd
    ensures if Masks(l) == map[] then l.maxfd == -1 else l.maxfd in Masks(l)
  {
    assert forall fd :: fd in Masks(l) <==> Registered(l, fd);
    if Masks(l) != map[] {
      var fd :| fd in Masks(l);
      assert fd <= l.maxfd;
    }
  }

  // ---------- dispatching fired events ----------

  /** What a handler may do: register and unregister, but not resize. */
  datatype Action = Register(fd: nat, mask: Mask, proc: Proc, data: int) | Unregister(fd: nat, mask: Mask)

  /** What happens during a dispatch, in order. */
  datatype Happening = Called(fd: nat, flag: Mask, proc: Proc) | Did(action: Action)

  /** What the `n`-th handler call does. */
  type Handlers = nat -> seq<Action>

  datatype Dispatch = Dispatch(loop: Loop, calls: nat, trace: seq<Happening>)

  datatype Fired = Fired(fd: nat, mask: Mask)

  function Perform(l: Loop, a: Action): Loop
    requires -1 <= l.maxfd < |l.table|
  {
    match a
    case Register(fd, mask, proc, data) => Apply(l, DoCreate(fd, mask, proc, data, true))
    case Unregister(fd, mask) => Apply(l, DoDelete(fd, mask))
  }

  lemma PerformKeepsSize(l: Loop, a: Action)
    requires -1 <= l.maxfd < |l.table|
    ensures -1 <= Perform(l, a).maxfd < |Perform(l, a).table| == |l.table|
  {
  }

  function PerformAll(d: Dispatch, actions: seq<Action>): (r: Dispatch)
    requires -1 <= d.loop.maxfd < |d.loop.table|
    ensures -1 <= r.loop.maxfd < |r.loop.table| == |d.loop.table| && r.calls == d.calls
  {
    if actions == [] then d else
      var front := PerformAll(d, actions[..|actions| - 1]);
      var last := actions[|actions| - 1];
      PerformKeepsSize(front.loop, last);
      Dispatch(Perform(front.loop, last), front.calls, front.trace + [Did(last)])
  }

  function Call(d: Dispatch, fd: nat, flag: Mask, proc: Proc, handlers: Handlers): (r: Dispatch)
    requires -1 <= d.loop.maxfd < |d.loop.table|
    ensures -1 <= r.loop.maxfd < |r.loop.table| == |d.loop.table|
  {
    PerformAll(Dispatch(d.loop, d.calls + 1, d.trace + [Called(fd, flag, proc)]), handlers(d.calls))
  }

  predicate ReadFires(l: Loop, f: Fired)
    requires f.fd < |l.table|
  {
    l.table[f.fd].mask & f.mask & READABLE != 0
  }

  predicate WriteFires(l: Loop, f: Fired, rfired: bool)
    requires f.fd < |l.table|
  {
    var fe := l.table[f.fd];
    fe.mask & f.mask & WRITABLE != 0 && (!rfired || fe.wfileProc != fe.rfileProc)
  }

  function AfterRead(d: Dispatch, f: Fired, handlers: Handlers): (r: Dispatch)
    requires -1 <= d.loop.maxfd < |d.loop.table| && f.fd < |d.loop.table|
    ensures -1 <= r.loop.maxfd < |r.loop.table| == |d.loop.table|
  {
    if ReadFires(d.loop, f) then Call(d, f.fd, READABLE, d.loop.table[f.fd].rfileProc, handlers) else d
  }

  function DispatchOne(d: Dispatch, f: Fired, handlers: Handlers): (r: Dispatch)
    requires -1 <= d.loop.maxfd < |d.loop.table| && f.fd < |d.loop.table|
    ensures -1 <= r.loop.maxfd < |r.loop.table| == |d.loop.table|
  {
    var d' := AfterRead(d, f, handlers);
    if WriteFires(d'.loop, f, ReadFires(d.loop, f)) then
      Call(d', f.fd, WRITABLE, d'.loop.table[f.fd].wfileProc, handlers)
    else d'
  }

  function DispatchAll(d: Dispatch, fired: seq<Fired>, handlers: Handlers): (r: Dispatch)
    requires -1 <= d.loop.maxfd < |d.loop.table|
    requires forall i | 0 <= i < |fired| :: fired[i].fd < |d.loop.table|
    ensures -1 <= r.loop.maxfd < |r.loop.table| == |d.loop.table|
  {
    if fired == [] then d
    else DispatchOne(DispatchAll(d, fired[..|fired| - 1], handlers), fired[|fired| - 1], handlers)
  }

  method RunHandler(l: FileLoop, call: Happening, calls: nat, trace: seq<Happening>, handlers: Handlers)
    returns (calls': nat, trace': seq<Happening>)
    requires l.Valid() && call.Called?
    modifies l, l.events
    ensures l.Valid() && l.events == old(l.events)
    ensures Dispatch(l.View(), calls', trace') ==
            Call(Dispatch(old(l.View()), calls, trace), call.fd, call.flag, call.proc, handlers)
  {
    var actions := handlers(calls);
    calls', trace' := calls + 1, trace + [call];
    ghost var start := Dispatch(l.View(), calls', trace');
    var i := 0;
    while i < |actions|
      invariant i <= |actions| && l.Valid() && l.events == old(l.events)
      invariant Dispatch(l.View(), calls', trace') == PerformAll(start, actions[..i])
    {
      hide Apply;
      assert actions[..i + 1][..i] == actions[..i];
      match actions[i] {
        case Register(fd, mask, proc, data) =>
          var _ := l.CreateFileEvent(fd, mask, proc, data, true);
        case Unregister(fd, mask) =>
          l.DeleteFileEvent(fd, mask);
      }
      trace' := trace' + [Did(actions[i])];
      i := i + 1;
    }
    assert actions[..i] == actions;
  }

  /** The dispatch loop of `aeProcessEvents` over a table. */
  method DispatchLoop(l: FileLoop, fired: seq<Fired>, handlers: Handlers)
    returns (processed: nat, calls: nat, trace: seq<Happening>)
    requires l.Valid() && forall i | 0 <= i < |fired| :: fired[i].fd < l.events.Length
    modifies l, l.events
    ensures l.Valid() && l.events == old(l.events) && processed == |fired|
    ensures Dispatch(l.View(), calls, trace) == DispatchAll(Dispatch(old(l.View()), 0, []), fired, handlers)
  {
    hide PerformAll, Perform;
    processed, calls, trace := 0, 0, [];
    var j := 0;
    while j < |fired|
      invariant j <= |fired| && processed == j && l.Valid() && l.events == old(l.events)
      invariant Dispatch(l.View(), calls, trace) == DispatchAll(Dispatch(old(l.View()), 0, []), fired[..j], handlers)
    {
      assert fired[..j + 1][..j] == fired[..j];
      var fd, mask := fired[j].fd, fired[j].mask;
      var rfired := false;
      if l.events[fd].mask & mask & READABLE != 0 {
        rfired := true;
        calls, trace := RunHandler(l, Called(fd, READABLE, l.events[fd].rfileProc), calls, trace, handlers);
      }
      if l.events[fd].mask & mask & WRITABLE != 0 && (!rfired || l.events[fd].wfileProc != l.events[fd].rfileProc) {
        calls, trace := RunHandler(l, Called(fd, WRITABLE, l.events[fd].wfileProc), calls, trace, handlers);
      }
      processed := processed + 1;
      j := j + 1;
    }
    assert fired[..j] == fired;
  }

  // ---------- only registered handlers are called ----------

  /** The table after the actions of a trace. */
  function Replay(l: Loop, trace: seq<Happening>): (r: Loop)
    requires -1 <= l.maxfd < |l.table|
    ensures -1 <= r.maxfd < |r.table| == |l.table|
  {
    if trace == [] then l else
      var r := Replay(l, trace[..|trace| - 1]);
      match trace[|trace| - 1]
      case Called(_, _, _) => r
      case Did(a) => PerformKeepsSize(r, a); Perform(r, a)
  }

  /** At every call, what was done so far has left the flag registered, with
      the handler that is called. */
  ghost predicate OnlyRegisteredCalls(l: Loop, trace: seq<Happening>)
    requires -1 <= l.maxfd < |l.table|
  {
    forall i | 0 <= i < |trace| && trace[i].Called? :: IsRegistered(Replay(l, trace[..i]), trace[i])
  }

  predicate IsRegistered(l: Loop, h: Happening)
    requires h.Called?
  {
    && h.fd < |l.table|
    && l.table[h.fd].mask & h.flag != 0
    && h.proc == if h.flag == READABLE then l.table[h.fd].rfileProc else l.table[h.fd].wfileProc
  }

  ghost predicate Explained(l: Loop, d: Dispatch)
    requires -1 <= l.maxfd < |l.table|
  {
    d.loop == Replay(l, d.trace) && OnlyRegisteredCalls(l, d.trace)
  }

  lemma TraceGrows(l: Loop, trace: seq<Happening>, h: Happening)
    requires -1 <= l.maxfd < |l.table| && OnlyRegisteredCalls(l, trace)
    requires h.Called? ==> IsRegistered(Replay(l, trace), h)
    ensures OnlyRegisteredCalls(l, trace + [h])
    ensures Replay(l, trace + [h]) ==
            if h.Called? then Replay(l, trace)
            else (PerformKeepsSize(Replay(l, trace), h.action); Perform(Replay(l, trace), h.action))
  {
    hide Perform, IsRegistered;
    var t := trace + [h];
    assert t[..|trace|] == trace;
    forall i | 0 <= i < |t| && t[i].Called? ensures IsRegistered(Replay(l, t[..i]), t[i]) {
      if i < |trace| { assert t[..i] == trace[..i]; }
    }
  }

  lemma {:induction false} PerformAllExplained(l: Loop, d: Dispatch, actions: seq<Action>)
    requires -1 <= l.maxfd < |l.table| && -1 <= d.loop.maxfd < |d.loop.table|
    requires Explained(l, d)
    ensures Explained(l, PerformAll(d, actions))
  {
    hide Perform, OnlyRegisteredCalls;
    if actions != [] {
      PerformAllExplained(l, d, actions[..|actions| - 1]);
      var front := PerformAll(d, actions[..|actions| - 1]);
      TraceGrows(l, front.trace, Did(actions[|actions| - 1]));
    }
  }

  lemma CallExplained(l: Loop, d: Dispatch, fd: nat, flag: Mask, proc: Proc, handlers: Handlers)
    requires -1 <= l.maxfd < |l.table| && -1 <= d.loop.maxfd < |d.loop.table|
    requires Explained(l, d) && IsRegistered(d.loop, Called(fd, flag, proc))
    ensures Explained(l, Call(d, fd, flag, proc, handlers))
  {
    hide OnlyRegisteredCalls;
    TraceGrows(l, d.trace, Called(fd, flag, proc));
    PerformAllExplained(l, Dispatch(d.loop, d.calls + 1, d.trace + [Called(fd, flag, proc)]), handlers(d.calls));
  }

  lemma FlagOfMasks(a: Mask, b: Mask, flag: Mask)
    requires a & b & flag != 0
    ensures a & flag != 0
  {
  }

  lemma DispatchOneExplained(l: Loop, d: Dispatch, f: Fired, handlers: Handlers)
    requires -1 <= l.maxfd < |l.table| && -1 <= d.loop.maxfd < |d.loop.table| && f.fd < |d.loop.table|
    requires Explained(l, d)
    ensures Explained(l, DispatchOne(d, f, handlers))
  {
    hide Explained, Call;
    if ReadFires(d.loop, f) {
      FlagOfMasks(d.loop.table[f.fd].mask, f.mask, READABLE);
      CallExplained(l, d, f.fd, READABLE, d.loop.table[f.fd].rfileProc, handlers);
    }
    var d' := AfterRead(d, f, handlers);
    if WriteFires(d'.loop, f, ReadFires(d.loop, f)) {
      FlagOfMasks(d'.loop.table[f.fd].mask, f.mask, WRITABLE);
      CallExplained(l, d', f.fd, WRITABLE, d'.loop.table[f.fd].wfileProc, handlers);
    }
  }

  /** No handler runs for a flag that is not registered at that moment, even
      when handlers before it, of the same dispatch, changed the table. */
  lemma {:induction false} DispatchCallsOnlyRegistered(l: Loop, fired: seq<Fired>, handlers: Handlers)
    requires -1 <= l.maxfd < |l.table|
    requires forall i | 0 <= i < |fired| :: fired[i].fd < |l.table|
    ensures var d := DispatchAll(Dispatch(l, 0, []), fired, handlers);
            d.loop == Replay(l, d.trace) && OnlyRegisteredCalls(l, d.trace)
  {
    hide DispatchOne, OnlyRegisteredCalls;
    if fired == [] {
      assert OnlyRegisteredCalls(l, []) by { NothingCalled(l); }
    } else {
      DispatchCallsOnlyRegistered(l, fired[..|fired| - 1], handlers);
      var d := DispatchAll(Dispatch(l, 0, []), fired[..|fired| - 1], handlers);
      DispatchOneExplained(l, d, fired[|fired| - 1], handlers);
    }
  }

  lemma NothingCalled(l: Loop)
    requires -1 <= l.maxfd < |l.table|
    ensures OnlyRegisteredCalls(l, [])
  {
  }

  // ---------- a shared handler ----------

  function CallsIn(trace: seq<Happening>): seq<Happening> {
    if trace == [] then [] else
      CallsIn(trace[..|trace| - 1]) + if trace[|trace| - 1].Called? then [trace[|trace| - 1]] else []
  }

  lemma {:induction false} PerformAllCallsNothing(d: Dispatch, actions: seq<Action>)
    requires -1 <= d.loop.maxfd < |d.loop.table|
    ensures CallsIn(PerformAll(d, actions).trace) == CallsIn(d.trace)
  {
    hide Perform;
    if actions != [] {
      PerformAllCallsNothing(d, actions[..|actions| - 1]);
      var front := PerformAll(d, actions[..|actions| - 1]);
      assert PerformAll(d, actions).trace[..|front.trace|] == front.trace;
    }
  }

  lemma CallRecords(d: Dispatch, fd: nat, flag: Mask, proc: Proc, handlers: Handlers)
    requires -1 <= d.loop.maxfd < |d.loop.table|
    ensures CallsIn(Call(d, fd, flag, proc, handlers).trace) == CallsIn(d.trace) + [Called(fd, flag, proc)]
  {
    var trace := d.trace + [Called(fd, flag, proc)];
    assert trace[..|d.trace|] == d.trace;
    PerformAllCallsNothing(Dispatch(d.loop, d.calls + 1, trace), handlers(d.calls));
  }

  /** The calls made for one fired descriptor: for reading if that is fired and
      registered, then for writing if it still is and is not shared. */
  lemma CallsForOne(d: Dispatch, f: Fired, handlers: Handlers)
    requires -1 <= d.loop.maxfd < |d.loop.table| && f.fd < |d.loop.table|
    ensures var d' := AfterRead(d, f, handlers);
            var read := ReadFires(d.loop, f);
            CallsIn(DispatchOne(d, f, handlers).trace) ==
            CallsIn(d.trace)
            + (if read then [Called(f.fd, READABLE, d.loop.table[f.fd].rfileProc)] else [])
            + (if WriteFires(d'.loop, f, read) then [Called(f.fd, WRITABLE, d'.loop.table[f.fd].wfileProc)] else [])
  {
    hide Call, CallsIn;
    var read := ReadFires(d.loop, f);
    if read { CallRecords(d, f.fd, READABLE, d.loop.table[f.fd].rfileProc, handlers); }
    var d' := AfterRead(d, f, handlers);
    if WriteFires(d'.loop, f, read) { CallRecords(d', f.fd, WRITABLE, d'.loop.table[f.fd].wfileProc, handlers); }
  }

  /** What a handler's actions do to the slot of one descriptor. */
  function SlotAfter(fe: FileEvent, actions: seq<Action>, fd: nat): FileEvent {
    if actions == [] then fe else
      var front := SlotAfter(fe, actions[..|actions| - 1], fd);
      match actions[|actions| - 1]
      case Register(other, mask, proc, data) =>
        if other != fd then front
        else FileEvent(front.mask | mask,
                       if mask & READABLE != 0 then proc else front.rfileProc,
                       if mask & WRITABLE != 0 then proc else front.wfileProc, data)
      case Unregister(other, mask) =>
        if other != fd then front else front.(mask := front.mask & !mask)
  }

  lemma {:induction false} SlotOfPerformAll(d: Dispatch, actions: seq<Action>, fd: nat)
    requires -1 <= d.loop.maxfd < |d.loop.table| && fd < |d.loop.table|
    ensures PerformAll(d, actions).loop.table[fd] == SlotAfter(d.loop.table[fd], actions, fd)
  {
    if actions != [] {
      SlotOfPerformAll(d, actions[..|actions| - 1], fd);
    }
  }

  /** Which handlers one fired descriptor calls: the read handler if it fired and
      is registered for reading; then the write handler if it fired and is still
      registered for writing, and is not the read handler that has just run. */
  lemma CallsByMask(d: Dispatch, f: Fired, handlers: Handlers)
    requires -1 <= d.loop.maxfd < |d.loop.table| && f.fd < |d.loop.table|
    ensures var fe := d.loop.table[f.fd];
            var after := SlotAfter(fe, handlers(d.calls), f.fd);
            CallsIn(DispatchOne(d, f, handlers).trace) ==
            CallsIn(d.trace) +
            if fe.mask & f.mask & 1 == 0 then
              if fe.mask & f.mask & 2 != 0 then [Called(f.fd, 2, fe.wfileProc)] else []
            else
              [Called(f.fd, 1, fe.rfileProc)] +
              if after.mask & f.mask & 2 != 0 && after.wfileProc != after.rfileProc
              then [Called(f.fd, 2, after.wfileProc)] else []
  {
    hide DispatchOne, CallsIn, PerformAll, SlotAfter;
    var fe := d.loop.table[f.fd];
    CallsForOne(d, f, handlers);
    if ReadFires(d.loop, f) {
      SlotOfPerformAll(Dispatch(d.loop, d.calls + 1, d.trace + [Called(f.fd, READABLE, fe.rfileProc)]),
                       handlers(d.calls), f.fd);
    }
  }

  /** Do a handler's own actions leave it registered for writing, next to another
      read handler? */
  predicate SplitsItself(fe: FileEvent, f: Fired, actions: seq<Action>) {
    var after := SlotAfter(fe, actions, f.fd);
    after.mask & f.mask & WRITABLE != 0 && after.wfileProc == fe.rfileProc && after.rfileProc != fe.rfileProc
  }

  /** The handler called for reading is called again for writing if and only if
      it splits itself; a handler that is still shared, or no longer registered
      for writing, runs once. */
  lemma SharedHandlerRunsOnce(d: Dispatch, f: Fired, handlers: Handlers)
    requires -1 <= d.loop.maxfd < |d.loop.table| && f.fd < |d.loop.table|
    requires ReadFires(d.loop, f)
    ensures var fe, actions := d.loop.table[f.fd], handlers(d.calls);
            var read, write := Called(f.fd, READABLE, fe.rfileProc), Called(f.fd, WRITABLE, fe.rfileProc);
            var calls := CallsIn(DispatchOne(d, f, handlers).trace);
            && (calls == CallsIn(d.trace) + [read, write] <==> SplitsItself(fe, f, actions))
            && (SlotAfter(fe, actions, f.fd).wfileProc == fe.rfileProc ==>
                  (calls == CallsIn(d.trace) + [read] <==> !SplitsItself(fe, f, actions)))
  {
    hide DispatchOne, CallsIn, PerformAll, SlotAfter;
    var fe := d.loop.table[f.fd];
    CallsForOne(d, f, handlers);
    SlotOfPerformAll(Dispatch(d.loop, d.calls + 1, d.trace + [Called(f.fd, READABLE, fe.rfileProc)]),
                     handlers(d.calls), f.fd);
    var after := SlotAfter(fe, handlers(d.calls), f.fd);
    var before, read := CallsIn(d.trace), Called(f.fd, READABLE, fe.rfileProc);
    var second := Called(f.fd, WRITABLE, after.wfileProc);
    assert before + [read] + [second] == before + [read, second];
    assert (before + [read, second])[|before| + 1] == second;
  }

  /** It can: here it registers another read handler and is then taken for a
      separate write handler. */
  lemma SharedHandlerCanRunTwice(proc: Proc, other: Proc, handlers: Handlers)
    requires proc != other && handlers(0) == [Register(0, READABLE, other, 0)]
    ensures var l := Loop([FileEvent(READABLE | WRITABLE, proc, proc, 0)], 0);
            CallsIn(DispatchAll(Dispatch(l, 0, []), [Fired(0, READABLE | WRITABLE)], handlers).trace) ==
            [Called(0, READABLE, proc), Called(0, WRITABLE, proc)]
  {
    hide DispatchOne;
    var l := Loop([FileEvent(READABLE | WRITABLE, proc, proc, 0)], 0);
    var d, f := Dispatch(l, 0, []), Fired(0, READABLE | WRITABLE);
    assert [f][..0] == [];
    assert DispatchAll(d, [f], handlers) == DispatchOne(d, f, handlers);
    CallsForOne(d, f, handlers);
    var called := [Called(0, READABLE, proc)];
    assert [] + called == called;
    RegisterOne(Dispatch(l, 1, called), other);
    assert ReadFires(l, f) && WriteFires(Create(l, 0, READABLE, other, 0), f, true);
    assert CallsIn([]) == [] && [] + called + [Called(0, WRITABLE, proc)] == called + [Called(0, WRITABLE, proc)];
  }

  lemma RegisterOne(d: Dispatch, proc: Proc)
    requires d.loop.maxfd == 0 && |d.loop.table| == 1
    ensures PerformAll(d, [Register(0, READABLE, proc, 0)]).loop == Create(d.loop, 0, READABLE, proc, 0)
  {
    assert [Register(0, READABLE, proc, 0)][..0] == [];
  }
}

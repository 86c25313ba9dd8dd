/** The timers of the event loop as values: the specification that the linked
    list of `AeTimers` refines. */
module TimerPass {
  /** Seconds and milliseconds, as `aeGetTime` returns them. */
  datatype Instant = Instant(sec: int, ms: int)

  /** A time event and when it is due. */
  datatype Timer = Timer(id: int, due: Instant)

  const NOMORE := -1

  function Total(t: Instant): int { t.sec * 1000 + t.ms }

  predicate Normal(t: Instant) { 0 <= t.ms < 1000 }

  /** The comparison the code uses: seconds first. */
  predicate Before(a: Instant, b: Instant) {
    a.sec < b.sec || (a.sec == b.sec && a.ms < b.ms)
  }

  predicate Due(t: Timer, now: Instant) { !Before(now, t.due) }

  // C division truncates toward zero.
  function Quotient(n: int, d: nat): int
    requires d > 0
  {
    if n >= 0 then n / d else -((-n) / d)
  }

  function Remainder(n: int, d: nat): int
    requires d > 0
  {
    if n >= 0 then n % d else -((-n) % d)
  }

  /** `aeAddMillisecondsToNow` */
  function AddMilliseconds(now: Instant, delay: int): Instant {
    var sec, ms := now.sec + Quotient(delay, 1000), now.ms + Remainder(delay, 1000);
    if ms >= 1000 then Instant(sec + 1, ms - 1000) else Instant(sec, ms)
  }

  /** Exactly the delay is added, and the result is normal for every delay that
      is not negative; a negative one can leave negative milliseconds. */
  lemma AddMillisecondsIsExact(now: Instant, delay: int)
    requires Normal(now)
    ensures Total(AddMilliseconds(now, delay)) == Total(now) + delay
    ensures AddMilliseconds(now, delay).ms < 1000
    ensures Normal(AddMilliseconds(now, delay)) <==> now.ms + Remainder(delay, 1000) >= 0
    ensures delay >= 0 ==> Normal(AddMilliseconds(now, delay))
  {
  }

  // ---------- the list ----------

  /** `tick` counts the clock readings taken; `fired` and `deleted` record which
      events were called and which a handler deleted. */
  datatype State = State(timers: seq<Timer>, nextId: int, lastTime: int, tick: nat, fired: seq<int>, deleted: seq<int>)

  type Clock = nat -> Instant

  datatype Action = Create(delay: int) | Delete(id: int)

  /** What a handler does to the timers while it runs, and what it returns. */
  datatype Outcome = Outcome(actions: seq<Action>, retval: int)

  /** The outcome of the `n`-th call, if it is for event `id`. */
  type Handlers = (nat, int) -> Outcome

  /** Newest first. */
  ghost predicate Ordered(s: State) {
    && (forall i, j | 0 <= i < j < |s.timers| :: s.timers[i].id > s.timers[j].id)
    && (forall i | 0 <= i < |s.timers| :: s.timers[i].id < s.nextId)
  }

  function CreateTimer(s: State, delay: int, clock: Clock): State {
    s.(timers := [Timer(s.nextId, AddMilliseconds(clock(s.tick), delay))] + s.timers,
       nextId := s.nextId + 1, tick := s.tick + 1)
  }

  /** The position of the first event with this id, or the length. */
  function Find(timers: seq<Timer>, id: int): (k: nat)
    ensures k <= |timers| && (k < |timers| ==> timers[k].id == id)
    ensures forall i | 0 <= i < k :: timers[i].id != id
  {
    if timers == [] || timers[0].id == id then 0 else 1 + Find(timers[1..], id)
  }

  function Remove(timers: seq<Timer>, id: int): seq<Timer> {
    var k := Find(timers, id);
    if k < |timers| then timers[..k] + timers[k + 1..] else timers
  }

  lemma RemoveAt(timers: seq<Timer>, k: nat)
    requires k < |timers| && forall i | 0 <= i < k :: timers[i].id != timers[k].id
    ensures Find(timers, timers[k].id) == k
    ensures Remove(timers, timers[k].id) == timers[..k] + timers[k + 1..]
  {
  }

  lemma RemoveSkips(timers: seq<Timer>, id: int)
    ensures var r, k := Remove(timers, id), Find(timers, id);
            if k == |timers| then r == timers
            else |r| == |timers| - 1 && forall i | 0 <= i < |r| :: r[i] == timers[if i < k then i else i + 1]
  {
  }

  function DeleteTimer(s: State, id: int): State {
    s.(timers := Remove(s.timers, id))
  }

  function Reschedule(timers: seq<Timer>, id: int, due: Instant): (r: seq<Timer>)
    ensures |r| == |timers|
  {
    var k := Find(timers, id);
    if k < |timers| then timers[k := Timer(id, due)] else timers
  }

  function Act(s: State, a: Action, clock: Clock): State {
    match a
    case Create(delay) => CreateTimer(s, delay, clock)
    case Delete(id) => DeleteTimer(s, id).(deleted := s.deleted + [id])
  }

  function ActAll(s: State, actions: seq<Action>, clock: Clock): State {
    if actions == [] then s else Act(ActAll(s, actions[..|actions| - 1], clock), actions[|actions| - 1], clock)
  }

  /** Calls the handler of event `id`, then reschedules or deletes the event. */
  function Fire(s: State, id: int, clock: Clock, handlers: Handlers): State {
    var outcome := handlers(|s.fired|, id);
    var s' := ActAll(s.(fired := s.fired + [id]), outcome.actions, clock);
    if outcome.retval != NOMORE then
      s'.(timers := Reschedule(s'.timers, id, AddMilliseconds(clock(s'.tick), outcome.retval)), tick := s'.tick + 1)
    else DeleteTimer(s', id)
  }

  /** Clock skew: if the clock went back every event becomes due at second 0. */
  function StartPass(s: State, now: int): State {
    s.(timers := if now < s.lastTime then ZeroSeconds(s.timers) else s.timers, lastTime := now)
  }

  function ZeroSeconds(timers: seq<Timer>): (r: seq<Timer>)
    ensures |r| == |timers|
  {
    seq(|timers|, i requires 0 <= i < |timers| => timers[i].(due := Instant(0, timers[i].due.ms)))
  }

  // ---------- when an event is due ----------

  /** A new event is the first of the list and due after its delay. */
  lemma NewEventIsDueAfterDelay(s: State, delay: int, clock: Clock)
    requires Normal(clock(s.tick))
    ensures var r := CreateTimer(s, delay, clock);
            && |r.timers| == |s.timers| + 1 && r.timers[1..] == s.timers && r.timers[0].id == s.nextId
            && Total(r.timers[0].due) == Total(clock(s.tick)) + delay
            && r.nextId == s.nextId + 1 && r.tick == s.tick + 1
  {
    AddMillisecondsIsExact(clock(s.tick), delay);
  }

  // ---------- what is assumed of the environment ----------

  /** Normal, never going back, and bounded. */
  ghost predicate ClockOk(clock: Clock, bound: int) {
    && (forall k :: Normal(clock(k)) && Total(clock(k)) <= bound)
    && (forall j, k | j <= k :: !Before(clock(k), clock(j)))
  }

  /** Handlers end their event or reschedule it later, and one that reschedules
      does not delete its own event. */
  ghost predicate HandlersOk(handlers: Handlers) {
    forall n, id ::
      var outcome := handlers(n, id);
      outcome.retval == NOMORE || (outcome.retval >= 1 && Delete(id) !in outcome.actions)
  }

  // ---------- the list stays in order ----------

  lemma CreateKeepsOrder(s: State, delay: int, clock: Clock)
    requires Ordered(s)
    ensures Ordered(CreateTimer(s, delay, clock))
  {
  }

  lemma DeleteKeepsOrder(s: State, id: int)
    requires Ordered(s)
    ensures Ordered(DeleteTimer(s, id))
    ensures forall i | 0 <= i < |DeleteTimer(s, id).timers| :: DeleteTimer(s, id).timers[i].id != id
  {
    hide Remove, Find;
    RemoveSkips(s.timers, id);
  }

  lemma RescheduleKeepsOrder(s: State, id: int, due: Instant)
    requires Ordered(s)
    ensures Ordered(s.(timers := Reschedule(s.timers, id, due)))
  {
  }

  lemma {:induction false} ActAllKeepsOrder(s: State, actions: seq<Action>, clock: Clock)
    requires Ordered(s)
    ensures var r := ActAll(s, actions, clock);
            && Ordered(r) && r.nextId >= s.nextId && r.tick >= s.tick
            && r.fired == s.fired && r.lastTime == s.lastTime && s.deleted <= r.deleted
  {
    hide Ordered, CreateTimer, DeleteTimer;
    if actions != [] {
      var front, last := actions[..|actions| - 1], actions[|actions| - 1];
      ActAllKeepsOrder(s, front, clock);
      ActKeepsOrder(ActAll(s, front, clock), last, clock);
    }
  }

  lemma ActKeepsOrder(s: State, a: Action, clock: Clock)
    requires Ordered(s)
    ensures var r := Act(s, a, clock);
            && Ordered(r) && r.nextId >= s.nextId && r.tick >= s.tick
            && r.fired == s.fired && r.lastTime == s.lastTime && s.deleted <= r.deleted
  {
    hide Ordered, AddMilliseconds;
    match a
    case Create(delay) => CreateKeepsOrder(s, delay, clock);
    case Delete(id) =>
      DeleteKeepsOrder(s, id);
      OrderedIgnoresRecords(DeleteTimer(s, id), Act(s, a, clock));
  }

  lemma OrderedIgnoresRecords(s: State, t: State)
    requires s.timers == t.timers && s.nextId == t.nextId
    ensures Ordered(s) <==> Ordered(t)
  {
  }

  lemma CalledKeepsOrder(s: State, id: int, actions: seq<Action>, clock: Clock)
    requires Ordered(s)
    ensures Ordered(ActAll(s.(fired := s.fired + [id]), actions, clock))
  {
    var s0 := s.(fired := s.fired + [id]);
    OrderedIgnoresRecords(s, s0);
    ActAllKeepsOrder(s0, actions, clock);
  }

  lemma HandlerKeepsOwnEvent(handlers: Handlers, n: nat, id: int)
    requires HandlersOk(handlers)
    ensures handlers(n, id).retval != NOMORE ==> Delete(id) !in handlers(n, id).actions
  {
  }

  lemma FireKeepsOrder(s: State, id: int, clock: Clock, handlers: Handlers)
    requires Ordered(s)
    ensures var r := Fire(s, id, clock, handlers);
            && Ordered(r) && r.nextId >= s.nextId && r.tick >= s.tick
            && r.fired == s.fired + [id] && r.lastTime == s.lastTime && s.deleted <= r.deleted
  {
    hide Ordered, ActAll, AddMilliseconds;
    var outcome := handlers(|s.fired|, id);
    var s0 := s.(fired := s.fired + [id]);
    OrderedIgnoresRecords(s, s0);
    ActAllKeepsOrder(s0, outcome.actions, clock);
    var s' := ActAll(s0, outcome.actions, clock);
    DeleteKeepsOrder(s', id);
    var due := AddMilliseconds(clock(s'.tick), outcome.retval);
    RescheduleKeepsOrder(s', id, due);
    OrderedIgnoresRecords(s'.(timers := Reschedule(s'.timers, id, due)),
                          s'.(timers := Reschedule(s'.timers, id, due), tick := s'.tick + 1));
  }

  lemma StartKeepsOrder(s: State, now: int)
    requires Ordered(s)
    ensures Ordered(StartPass(s, now))
  {
  }

  // ---------- the pass ends ----------

  /** How often the clock can still move past an event before it passes the
      bound: nothing for the events that do not matter. */
  function Chances(t: Timer, matters: int -> bool, bound: int): nat {
    if !matters(t.id) || Total(t.due) > bound then 0 else bound - Total(t.due) + 1
  }

  function Remaining(timers: seq<Timer>, matters: int -> bool, bound: int): nat {
    if timers == [] then 0 else Chances(timers[0], matters, bound) + Remaining(timers[1..], matters, bound)
  }

  /** The events a pass handles. */
  function UpTo(maxId: int): int -> bool { id => id <= maxId }

  function UpToExcept(maxId: int, except: int): int -> bool { id => id <= maxId && id != except }

  lemma {:induction false} RemainingSplit(a: seq<Timer>, b: seq<Timer>, matters: int -> bool, bound: int)
    ensures Remaining(a + b, matters, bound) == Remaining(a, matters, bound) + Remaining(b, matters, bound)
  {
    hide Chances;
    if a == [] {
      assert a + b == b;
    } else {
      assert (a + b)[1..] == a[1..] + b;
      RemainingSplit(a[1..], b, matters, bound);
    }
  }

  /** Taking out the event at `k`, or replacing it, changes the sum by its part. */
  lemma RemainingAt(timers: seq<Timer>, k: nat, t: Timer, matters: int -> bool, bound: int)
    requires k < |timers|
    ensures Remaining(timers[..k] + timers[k + 1..], matters, bound) ==
            Remaining(timers, matters, bound) - Chances(timers[k], matters, bound)
    ensures Remaining(timers[k := t], matters, bound) ==
            Remaining(timers, matters, bound) - Chances(timers[k], matters, bound) + Chances(t, matters, bound)
  {
    hide Chances;
    var a, b := timers[..k], timers[k + 1..];
    RemainingSplit(a, b, matters, bound);
    RemainingSplit(a, [timers[k]] + b, matters, bound);
    RemainingSplit(a, [t] + b, matters, bound);
    assert timers == a + ([timers[k]] + b) && timers[k := t] == a + ([t] + b);
    assert ([timers[k]] + b)[1..] == b && ([t] + b)[1..] == b;
  }

  /** What a handler does never adds chances: the events it creates are new. */
  lemma {:induction false} ActAllLowersRemaining(s: State, actions: seq<Action>, clock: Clock,
                                                 matters: int -> bool, bound: int)
    requires forall id | id >= s.nextId :: !matters(id)
    ensures var r := ActAll(s, actions, clock);
            r.nextId >= s.nextId && Remaining(r.timers, matters, bound) <= Remaining(s.timers, matters, bound)
  {
    hide AddMilliseconds, Find;
    if actions != [] {
      var front, last := actions[..|actions| - 1], actions[|actions| - 1];
      ActAllLowersRemaining(s, front, clock, matters, bound);
      var m := ActAll(s, front, clock);
      match last
      case Create(delay) =>
        var t := Timer(m.nextId, AddMilliseconds(clock(m.tick), delay));
        assert ([t] + m.timers)[1..] == m.timers;
      case Delete(id) =>
        var k := Find(m.timers, id);
        if k < |m.timers| { RemainingAt(m.timers, k, m.timers[k], matters, bound); }
    }
  }

  /** Without the event, leaving it out of the sum changes nothing. */
  lemma {:induction false} RemainingWithout(timers: seq<Timer>, maxId: int, id: int, bound: int)
    requires forall i | 0 <= i < |timers| :: timers[i].id != id
    ensures Remaining(timers, UpTo(maxId), bound) == Remaining(timers, UpToExcept(maxId, id), bound)
  {
    if timers != [] { RemainingWithout(timers[1..], maxId, id, bound); }
  }

  /** With it, the sum is its chances and those of the others. */
  lemma RemainingWith(timers: seq<Timer>, k: nat, maxId: int, bound: int)
    requires k < |timers| && forall i | 0 <= i < |timers| && i != k :: timers[i].id != timers[k].id
    ensures Remaining(timers, UpTo(maxId), bound) ==
            Remaining(timers, UpToExcept(maxId, timers[k].id), bound) + Chances(timers[k], UpTo(maxId), bound)
  {
    var id := timers[k].id;
    RemainingAt(timers, k, timers[k], UpTo(maxId), bound);
    RemainingAt(timers, k, timers[k], UpToExcept(maxId, id), bound);
    RemainingWithout(timers[..k] + timers[k + 1..], maxId, id, bound);
  }

  /** A handler that does not delete the event leaves it as it is. */
  lemma {:induction false} ActAllKeepsEvent(s: State, actions: seq<Action>, clock: Clock, t: Timer)
    requires Ordered(s) && t in s.timers && Delete(t.id) !in actions
    ensures t in ActAll(s, actions, clock).timers
  {
    hide AddMilliseconds, Ordered;
    if actions != [] {
      var front, last := actions[..|actions| - 1], actions[|actions| - 1];
      ActAllKeepsEvent(s, front, clock, t);
      var m := ActAll(s, front, clock);
      if last.Delete? { RemoveKeepsOthers(m.timers, last.id, t); }
    }
  }

  lemma RemoveKeepsOthers(timers: seq<Timer>, id: int, t: Timer)
    requires t in timers && t.id != id
    ensures t in Remove(timers, id)
  {
    var i :| 0 <= i < |timers| && timers[i] == t;
    var k := Find(timers, id);
    if k < |timers| {
      assert Remove(timers, id)[if i < k then i else i - 1] == t;
    }
  }

  lemma FindListed(s: State, t: Timer)
    requires Ordered(s) && t in s.timers
    ensures var k := Find(s.timers, t.id); k < |s.timers| && s.timers[k] == t
  {
    var i :| 0 <= i < |s.timers| && s.timers[i] == t;
  }

  /** The ids in the deletions among the actions. */
  function Deletions(actions: seq<Action>): seq<int> {
    if actions == [] then [] else
      Deletions(actions[..|actions| - 1]) +
      match actions[|actions| - 1] case Create(_) => [] case Delete(id) => [id]
  }

  /** All the actions of a handler are carried out: each creation takes an id, and
      of the events that were there exactly those deleted are gone. */
  lemma {:induction false} ActionsAreCarriedOut(s: State, actions: seq<Action>, clock: Clock, t: Timer)
    requires Ordered(s) && t in s.timers
    ensures var r := ActAll(s, actions, clock);
            && r.nextId == s.nextId + |actions| - |Deletions(actions)|
            && r.deleted == s.deleted + Deletions(actions)
            && t.id < r.nextId
            && (Delete(t.id) !in actions ==> t in r.timers)
            && (Delete(t.id) in actions ==> forall u | u in r.timers :: u.id != t.id)
  {
    hide Act, Ordered;
    BelowNextId(s, t);
    if actions != [] {
      var front, last := actions[..|actions| - 1], actions[|actions| - 1];
      ActionsAreCarriedOut(s, front, clock, t);
      ActAllKeepsOrder(s, front, clock);
      assert actions == front + [last];
      ActionIsCarriedOut(ActAll(s, front, clock), last, clock, t);
    }
  }

  lemma ActionIsCarriedOut(s: State, a: Action, clock: Clock, t: Timer)
    requires Ordered(s)
    ensures var r := Act(s, a, clock);
            && r.nextId == s.nextId + (if a.Create? then 1 else 0)
            && r.deleted == s.deleted + (if a.Create? then [] else [a.id])
            && (t in s.timers && a != Delete(t.id) ==> t in r.timers)
            && (a == Delete(t.id) ==> forall u | u in r.timers :: u.id != t.id)
            && (forall u | u in r.timers :: u in s.timers || u.id == s.nextId)
  {
    hide AddMilliseconds, Remove, Ordered;
    if a.Delete? {
      DeleteKeepsOrder(s, a.id);
      RemoveAddsNothing(s.timers, a.id);
      if t in s.timers && a.id != t.id { RemoveKeepsOthers(s.timers, a.id, t); }
    }
  }

  lemma BelowNextId(s: State, t: Timer)
    requires Ordered(s) && t in s.timers
    ensures t.id < s.nextId
  {
  }

  lemma RemoveAddsNothing(timers: seq<Timer>, id: int)
    ensures forall u | u in Remove(timers, id) :: u in timers
  {
  }

  /** A fired event comes back after exactly the delay its handler returned, by
      the clock when the handler is done; or not at all, if it returned that. */
  lemma FiredEventComesBack(s: State, t: Timer, clock: Clock, handlers: Handlers)
    requires Ordered(s) && t in s.timers && HandlersOk(handlers) && forall k :: Normal(clock(k))
    ensures var outcome, r := handlers(|s.fired|, t.id), Fire(s, t.id, clock, handlers);
            if outcome.retval == -1 then forall u | u in r.timers :: u.id != t.id
            else r.tick > 0 &&
                 exists u :: u in r.timers && u.id == t.id
                             && Total(u.due) == Total(clock(r.tick - 1)) + outcome.retval
  {
    hide ActAll, AddMilliseconds, Ordered;
    var outcome := handlers(|s.fired|, t.id);
    var s0 := s.(fired := s.fired + [t.id]);
    OrderedIgnoresRecords(s, s0);
    ActAllKeepsOrder(s0, outcome.actions, clock);
    var m := ActAll(s0, outcome.actions, clock);
    if outcome.retval == -1 {
      DeleteKeepsOrder(m, t.id);
    } else {
      ActAllKeepsEvent(s0, outcome.actions, clock, t);
      FindListed(m, t);
      AddMillisecondsIsExact(clock(m.tick), outcome.retval);
      var u := Timer(t.id, AddMilliseconds(clock(m.tick), outcome.retval));
      assert Fire(s, t.id, clock, handlers).timers[Find(m.timers, t.id)] == u;
    }
  }

  /** Firing a due event takes away at least one chance. */
  lemma FireLowersRemaining(s: State, t: Timer, clock: Clock, handlers: Handlers, maxId: int, bound: int)
    requires Ordered(s) && t in s.timers && t.id <= maxId < s.nextId && t.due.ms < 1000
    requires ClockOk(clock, bound) && HandlersOk(handlers)
    requires s.tick > 0 && Due(t, clock(s.tick - 1))
    ensures Remaining(Fire(s, t.id, clock, handlers).timers, UpTo(maxId), bound) <
            Remaining(s.timers, UpTo(maxId), bound)
  {
    hide ActAll, Chances, AddMilliseconds, UpTo, UpToExcept;
    var id, outcome := t.id, handlers(|s.fired|, t.id);
    var others := UpToExcept(maxId, id);
    var s0 := s.(fired := s.fired + [id]);
    var m := ActAll(s0, outcome.actions, clock);
    ActAllKeepsOrder(s0, outcome.actions, clock);
    MattersOnlyUpTo(maxId, id, s.nextId);
    ActAllLowersRemaining(s0, outcome.actions, clock, others, bound);
    FindListed(s, t);
    RemainingWith(s.timers, Find(s.timers, id), maxId, bound);
    DueHasChance(t, clock, s.tick - 1, maxId, bound);
    var k := Find(m.timers, id);
    if outcome.retval != NOMORE {
      ActAllKeepsEvent(s0, outcome.actions, clock, t);
      FindListed(m, t);
      var t' := Timer(id, AddMilliseconds(clock(m.tick), outcome.retval));
      RemainingAt(m.timers, k, t', others, bound);
      RemainingWith(m.timers[k := t'], k, maxId, bound);
      SkippedHasNoChance(t, maxId, bound);
      SkippedHasNoChance(t', maxId, bound);
      LaterHasFewerChances(t, clock, s.tick - 1, m.tick, outcome.retval, maxId, bound);
    } else {
      if k < |m.timers| {
        RemainingAt(m.timers, k, m.timers[k], others, bound);
        SkippedHasNoChance(m.timers[k], maxId, bound);
      }
      DeleteKeepsOrder(m, id);
      RemainingWithout(Remove(m.timers, id), maxId, id, bound);
    }
  }

  lemma MattersOnlyUpTo(maxId: int, id: int, nextId: int)
    requires maxId < nextId
    ensures forall i | i >= nextId :: !UpToExcept(maxId, id)(i)
  {
  }

  lemma SkippedHasNoChance(t: Timer, maxId: int, bound: int)
    ensures Chances(t, UpToExcept(maxId, t.id), bound) == 0
  {
  }

  lemma DueHasChance(t: Timer, clock: Clock, tick: nat, maxId: int, bound: int)
    requires ClockOk(clock, bound) && Due(t, clock(tick)) && t.due.ms < 1000 && t.id <= maxId
    ensures Total(t.due) <= Total(clock(tick)) && Chances(t, UpTo(maxId), bound) >= 1
  {
  }

  lemma LaterHasFewerChances(t: Timer, clock: Clock, tick: nat, later: nat, delay: int, maxId: int, bound: int)
    requires ClockOk(clock, bound) && Due(t, clock(tick)) && t.due.ms < 1000 && t.id <= maxId
    requires tick <= later && delay >= 1
    ensures Chances(Timer(t.id, AddMilliseconds(clock(later), delay)), UpTo(maxId), bound) <
            Chances(t, UpTo(maxId), bound)
  {
    DueHasChance(t, clock, tick, maxId, bound);
    AddMillisecondsIsExact(clock(later), delay);
    assert !Before(clock(later), clock(tick));
    hide AddMilliseconds;
  }

  // ---------- the pass ----------

  ghost predicate MillisecondsOk(s: State) {
    forall i | 0 <= i < |s.timers| :: s.timers[i].due.ms < 1000
  }

  /** What the loop of the pass can rely on. */
  ghost predicate PassOk(s: State, maxId: int, clock: Clock, handlers: Handlers, bound: int) {
    Ordered(s) && MillisecondsOk(s) && maxId < s.nextId && ClockOk(clock, bound) && HandlersOk(handlers)
  }

  lemma OrderedOfPass(s: State, maxId: int, clock: Clock, handlers: Handlers, bound: int)
    requires PassOk(s, maxId, clock, handlers, bound)
    ensures Ordered(s) && HandlersOk(handlers)
  {
  }

  lemma {:induction false} ActAllKeepsMilliseconds(s: State, actions: seq<Action>, clock: Clock)
    requires MillisecondsOk(s) && forall k :: Normal(clock(k))
    ensures MillisecondsOk(ActAll(s, actions, clock))
  {
    hide AddMilliseconds;
    if actions != [] {
      var front, last := actions[..|actions| - 1], actions[|actions| - 1];
      ActAllKeepsMilliseconds(s, front, clock);
      if last.Create? { AddMillisecondsIsExact(clock(ActAll(s, front, clock).tick), last.delay); }
    }
  }

  lemma FireKeepsPassOk(s: State, id: int, maxId: int, clock: Clock, handlers: Handlers, bound: int)
    requires PassOk(s, maxId, clock, handlers, bound)
    ensures PassOk(Fire(s, id, clock, handlers), maxId, clock, handlers, bound)
  {
    hide ActAll, AddMilliseconds, Ordered, HandlersOk;
    FireKeepsOrder(s, id, clock, handlers);
    var outcome := handlers(|s.fired|, id);
    var s0 := s.(fired := s.fired + [id]);
    ActAllKeepsMilliseconds(s0, outcome.actions, clock);
    var m := ActAll(s0, outcome.actions, clock);
    AddMillisecondsIsExact(clock(m.tick), outcome.retval);
  }

  /** The clock is read for an event that the pass handles; time passes. */
  function Tick(s: State): State { s.(tick := s.tick + 1) }

  /** The loop, at position `k` of the list: it goes on to the next event, or
      fires a due one and restarts from the head. */
  ghost function Scan(s: State, k: nat, maxId: int, clock: Clock, handlers: Handlers, bound: int): State
    requires k <= |s.timers| && PassOk(s, maxId, clock, handlers, bound)
    decreases Remaining(s.timers, UpTo(maxId), bound), |s.timers| - k
  {
    if k == |s.timers| then s
    else if s.timers[k].id > maxId then Scan(s, k + 1, maxId, clock, handlers, bound)
    else if !Due(s.timers[k], clock(s.tick)) then Scan(Tick(s), k + 1, maxId, clock, handlers, bound)
    else
      FireLowersRemaining(Tick(s), s.timers[k], clock, handlers, maxId, bound);
      FireKeepsPassOk(Tick(s), s.timers[k].id, maxId, clock, handlers, bound);
      Scan(Fire(Tick(s), s.timers[k].id, clock, handlers), 0, maxId, clock, handlers, bound)
  }

  lemma ScanEnd(s: State, maxId: int, clock: Clock, handlers: Handlers, bound: int)
    requires PassOk(s, maxId, clock, handlers, bound)
    ensures Scan(s, |s.timers|, maxId, clock, handlers, bound) == s
  {
  }

  /** One step of the loop. */
  lemma ScanStep(s: State, k: nat, maxId: int, clock: Clock, handlers: Handlers, bound: int)
    requires k < |s.timers| && PassOk(s, maxId, clock, handlers, bound)
    ensures PassOk(Tick(s), maxId, clock, handlers, bound)
    ensures var t := s.timers[k];
            Scan(s, k, maxId, clock, handlers, bound) ==
            if t.id > maxId then Scan(s, k + 1, maxId, clock, handlers, bound)
            else if !Due(t, clock(s.tick)) then Scan(Tick(s), k + 1, maxId, clock, handlers, bound)
            else (StepIsProgress(s, k, maxId, clock, handlers, bound);
                  Scan(Fire(Tick(s), t.id, clock, handlers), 0, maxId, clock, handlers, bound))
  {
    hide Fire, Remaining, Ordered, MillisecondsOk, HandlersOk, ClockOk;
    TickKeepsPassOk(s, maxId, clock, handlers, bound);
    if s.timers[k].id <= maxId && Due(s.timers[k], clock(s.tick)) {
      StepIsProgress(s, k, maxId, clock, handlers, bound);
    }
  }

  lemma StartIsOk(s: State, now: int, clock: Clock, handlers: Handlers, bound: int)
    requires PassOk(s, s.nextId - 1, clock, handlers, bound)
    ensures PassOk(StartPass(s, now), s.nextId - 1, clock, handlers, bound)
  {
    StartKeepsOrder(s, now);
  }

  /** `processTimeEvents`: it handles the events that exist when it starts. */
  ghost function Pass(s: State, now: int, clock: Clock, handlers: Handlers, bound: int): State
    requires PassOk(s, s.nextId - 1, clock, handlers, bound)
  {
    StartIsOk(s, now, clock, handlers, bound);
    Scan(StartPass(s, now), 0, s.nextId - 1, clock, handlers, bound)
  }

  // ---------- what a pass guarantees ----------

  /** The list stays ordered, only events of the start are fired, and none of
      them is still in the list and due by a reading the pass has started with. */
  lemma {:induction false} ScanResult(s: State, k: nat, maxId: int, clock: Clock, handlers: Handlers,
                                      bound: int, start: nat)
    requires k <= |s.timers| && PassOk(s, maxId, clock, handlers, bound)
    requires start <= s.tick
    requires forall i | 0 <= i < k && s.timers[i].id <= maxId :: !Due(s.timers[i], clock(start))
    ensures var r := Scan(s, k, maxId, clock, handlers, bound);
            && PassOk(r, maxId, clock, handlers, bound)
            && s.fired <= r.fired && (forall i | |s.fired| <= i < |r.fired| :: r.fired[i] <= maxId)
            && (forall i | 0 <= i < |r.timers| && r.timers[i].id <= maxId :: !Due(r.timers[i], clock(start)))
            && r.lastTime == s.lastTime && s.nextId <= r.nextId && s.deleted <= r.deleted
    decreases Remaining(s.timers, UpTo(maxId), bound), |s.timers| - k
  {
    hide Fire, Remaining, Ordered, MillisecondsOk, HandlersOk;
    if k < |s.timers| {
      var t := s.timers[k];
      if t.id > maxId {
        ScanResult(s, k + 1, maxId, clock, handlers, bound, start);
      } else if !Due(t, clock(s.tick)) {
        NotDueEarlier(t, clock, start, s.tick, bound);
        TickKeepsPassOk(s, maxId, clock, handlers, bound);
        ScanResult(Tick(s), k + 1, maxId, clock, handlers, bound, start);
      } else {
        TickKeepsPassOk(s, maxId, clock, handlers, bound);
        StepIsProgress(s, k, maxId, clock, handlers, bound);
        var s' := Fire(Tick(s), t.id, clock, handlers);
        FireRecords(Tick(s), t.id, clock, handlers);
        ScanResult(s', 0, maxId, clock, handlers, bound, start);
      }
    }
  }

  lemma TickKeepsPassOk(s: State, maxId: int, clock: Clock, handlers: Handlers, bound: int)
    requires PassOk(s, maxId, clock, handlers, bound)
    ensures PassOk(Tick(s), maxId, clock, handlers, bound)
  {
  }

  lemma NotDueEarlier(t: Timer, clock: Clock, earlier: nat, later: nat, bound: int)
    requires ClockOk(clock, bound) && earlier <= later && !Due(t, clock(later))
    ensures !Due(t, clock(earlier))
  {
    assert !Before(clock(later), clock(earlier));
  }

  lemma StepIsProgress(s: State, k: nat, maxId: int, clock: Clock, handlers: Handlers, bound: int)
    requires k < |s.timers| && PassOk(s, maxId, clock, handlers, bound)
    requires s.timers[k].id <= maxId && Due(s.timers[k], clock(s.tick))
    ensures var s' := Fire(Tick(s), s.timers[k].id, clock, handlers);
            && PassOk(s', maxId, clock, handlers, bound)
            && Remaining(s'.timers, UpTo(maxId), bound) < Remaining(s.timers, UpTo(maxId), bound)
  {
    FireLowersRemaining(Tick(s), s.timers[k], clock, handlers, maxId, bound);
    FireKeepsPassOk(Tick(s), s.timers[k].id, maxId, clock, handlers, bound);
  }

  lemma FireRecords(s: State, id: int, clock: Clock, handlers: Handlers)
    requires Ordered(s)
    ensures var r := Fire(s, id, clock, handlers);
            r.fired == s.fired + [id] && r.tick >= s.tick && r.nextId >= s.nextId
            && r.lastTime == s.lastTime && s.deleted <= r.deleted
  {
    FireKeepsOrder(s, id, clock, handlers);
  }

  /** A pass ends although it restarts from the head after every event; the list
      stays strictly decreasing with all ids below the next one; no event created
      during the pass is fired; and no event that existed when it started is left
      in the list due by the first clock reading of the pass. */
  lemma PassGuarantees(s: State, now: int, clock: Clock, handlers: Handlers, bound: int)
    requires PassOk(s, s.nextId - 1, clock, handlers, bound)
    ensures var r := Pass(s, now, clock, handlers, bound);
            && Ordered(r) && r.lastTime == now
            && s.fired <= r.fired && (forall i | |s.fired| <= i < |r.fired| :: r.fired[i] < s.nextId <= r.nextId)
            && (forall t | t in r.timers && t.id < s.nextId :: !Due(t, clock(s.tick)))
  {
    hide Ordered, MillisecondsOk, HandlersOk, Remaining;
    StartIsOk(s, now, clock, handlers, bound);
    ScanResult(StartPass(s, now), 0, s.nextId - 1, clock, handlers, bound, s.tick);
  }

  /** With a clock that stands still during the pass: nothing due is left. */
  lemma NoDueEventLeft(s: State, now: int, clock: Clock, handlers: Handlers, bound: int)
    requires PassOk(s, s.nextId - 1, clock, handlers, bound)
    requires forall k :: clock(k) == clock(0)
    ensures forall t, k | t in Pass(s, now, clock, handlers, bound).timers && t.id < s.nextId :: !Due(t, clock(k))
  {
    PassGuarantees(s, now, clock, handlers, bound);
    hide Pass;
  }

  /** What a program does with the timers, over its whole run. Between two
      operations the clock may be set to any time. */
  datatype Operation =
    | DoCreate(delay: int, clock: Clock)
    | DoDelete(id: int)
    | DoPass(now: int, clock: Clock, bound: int, handlers: Handlers)

  ghost predicate OperationOk(op: Operation) {
    match op
    case DoCreate(_, clock) => forall k :: Normal(clock(k))
    case DoDelete(_) => true
    case DoPass(_, clock, bound, handlers) => ClockOk(clock, bound) && HandlersOk(handlers)
  }

  ghost function RunStep(s: State, op: Operation): State
    requires Ordered(s) && MillisecondsOk(s) && OperationOk(op)
  {
    match op
    case DoCreate(delay, clock) => CreateTimer(s, delay, clock)
    case DoDelete(id) => DeleteTimer(s, id)
    case DoPass(now, clock, bound, handlers) => Pass(s, now, clock, handlers, bound)
  }

  lemma RunStepKeepsOrder(s: State, op: Operation)
    requires Ordered(s) && MillisecondsOk(s) && OperationOk(op)
    ensures Ordered(RunStep(s, op)) && MillisecondsOk(RunStep(s, op))
  {
    hide AddMilliseconds, Scan;
    match op
    case DoCreate(delay, clock) =>
      CreateKeepsOrder(s, delay, clock);
      AddMillisecondsIsExact(clock(s.tick), delay);
    case DoDelete(id) => DeleteKeepsOrder(s, id);
    case DoPass(now, clock, bound, handlers) =>
      StartIsOk(s, now, clock, handlers, bound);
      ScanResult(StartPass(s, now), 0, s.nextId - 1, clock, handlers, bound, s.tick);
  }

  /** Over every run the list stays ordered; that is also what makes the next
      operation possible. */
  ghost function RunAll(operations: seq<Operation>, lastTime: int): (s: State)
    requires forall i | 0 <= i < |operations| :: OperationOk(operations[i])
    ensures Ordered(s) && MillisecondsOk(s)
  {
    if operations == [] then State([], 0, lastTime, 0, [], []) else
      var s := RunAll(operations[..|operations| - 1], lastTime);
      RunStepKeepsOrder(s, operations[|operations| - 1]);
      RunStep(s, operations[|operations| - 1])
  }

  /** A run begins without events; the first will have the id 0. Each operation
      continues from where those before it have led. */
  lemma RunsContinue(operations: seq<Operation>, op: Operation, lastTime: int)
    requires OperationOk(op) && forall i | 0 <= i < |operations| :: OperationOk(operations[i])
    ensures RunAll([], lastTime).timers == [] && RunAll([], lastTime).nextId == 0
    ensures RunAll([], lastTime).lastTime == lastTime
    ensures var s, r := RunAll(operations, lastTime), RunAll(operations + [op], lastTime);
            && (op.DoCreate? ==> r == CreateTimer(s, op.delay, op.clock))
            && (op.DoDelete? ==> r == DeleteTimer(s, op.id))
            && (op.DoPass? ==> r == Pass(s, op.now, op.clock, op.handlers, op.bound))
  {
    hide Ordered, MillisecondsOk, CreateTimer, DeleteTimer, Pass;
    assert (operations + [op])[..|operations|] == operations;
  }

  // ---------- after the clock went back ----------

  /** Since `start` the event was fired or deleted, or it is still in the list as
      due. */
  ghost predicate Accounted(start: State, s: State, t: Timer) {
    && start.fired <= s.fired && start.deleted <= s.deleted
    && (|| t.id in s.fired[|start.fired|..] || t.id in s.deleted[|start.deleted|..]
        || exists i :: 0 <= i < |s.timers| && s.timers[i] == t)
  }

  lemma {:induction false} ActAllAccounts(start: State, s: State, actions: seq<Action>, clock: Clock, t: Timer)
    requires Accounted(start, s, t)
    ensures Accounted(start, ActAll(s, actions, clock), t)
  {
    hide Act, Accounted;
    if actions != [] {
      var front, last := actions[..|actions| - 1], actions[|actions| - 1];
      ActAllAccounts(start, s, front, clock, t);
      ActAccounts(start, ActAll(s, front, clock), last, clock, t);
    }
  }

  lemma ActAccounts(start: State, s: State, a: Action, clock: Clock, t: Timer)
    requires Accounted(start, s, t)
    ensures Accounted(start, Act(s, a, clock), t)
  {
    hide AddMilliseconds, Remove;
    match a {
      case Create(delay) =>
        var r := CreateTimer(s, delay, clock);
        assert forall i | 0 <= i < |s.timers| :: r.timers[i + 1] == s.timers[i];
      case Delete(id) =>
        var n := |start.deleted|;
        assert (s.deleted + [id])[n..] == s.deleted[n..] + [id];
        if t.id == id {
          assert (s.deleted[n..] + [id])[|s.deleted| - n] == id;
        } else if t in s.timers {
          RemoveKeepsOthers(s.timers, id, t);
        }
    }
  }

  lemma FireAccounts(start: State, s: State, id: int, clock: Clock, handlers: Handlers, t: Timer)
    requires Accounted(start, s, t)
    ensures Accounted(start, Fire(s, id, clock, handlers), t)
  {
    hide AddMilliseconds, ActAll, Remove;
    var outcome, n := handlers(|s.fired|, id), |start.fired|;
    var s0 := s.(fired := s.fired + [id]);
    assert s0.fired[n..] == s.fired[n..] + [id];
    assert (s.fired[n..] + [id])[|s.fired| - n] == id;
    ActAllAccounts(start, s0, outcome.actions, clock, t);
    ActAllKeepsFired(s0, outcome.actions, clock);
    var m := ActAll(s0, outcome.actions, clock);
    if t.id != id && t in m.timers {
      var i :| 0 <= i < |m.timers| && m.timers[i] == t;
      if outcome.retval == NOMORE {
        RemoveKeepsOthers(m.timers, id, t);
      } else {
        assert Fire(s, id, clock, handlers).timers[i] == t;
      }
    }
  }

  lemma {:induction false} ActAllKeepsFired(s: State, actions: seq<Action>, clock: Clock)
    ensures ActAll(s, actions, clock).fired == s.fired
  {
    if actions != [] { ActAllKeepsFired(s, actions[..|actions| - 1], clock); }
  }

  lemma {:induction false} ScanAccounts(start: State, s: State, k: nat, maxId: int, clock: Clock, handlers: Handlers,
                                        bound: int, t: Timer)
    requires k <= |s.timers| && PassOk(s, maxId, clock, handlers, bound)
    requires Accounted(start, s, t)
    ensures Accounted(start, Scan(s, k, maxId, clock, handlers, bound), t)
    decreases Remaining(s.timers, UpTo(maxId), bound), |s.timers| - k
  {
    hide Fire, Remaining, Ordered, MillisecondsOk, HandlersOk, ClockOk;
    if k < |s.timers| {
      TickKeepsPassOk(s, maxId, clock, handlers, bound);
      if s.timers[k].id > maxId {
        ScanAccounts(start, s, k + 1, maxId, clock, handlers, bound, t);
      } else if !Due(s.timers[k], clock(s.tick)) {
        ScanAccounts(start, Tick(s), k + 1, maxId, clock, handlers, bound, t);
      } else {
        StepIsProgress(s, k, maxId, clock, handlers, bound);
        FireAccounts(start, Tick(s), s.timers[k].id, clock, handlers, t);
        ScanAccounts(start, Fire(Tick(s), s.timers[k].id, clock, handlers), 0, maxId, clock, handlers, bound, t);
      }
    }
  }

  /** Did the pass from `s` to `r` fire the event, or a handler delete it? */
  predicate FiredOrDeleted(s: State, r: State, id: int) {
    && |s.fired| <= |r.fired| && |s.deleted| <= |r.deleted|
    && (id in r.fired[|s.fired|..] || id in r.deleted[|s.deleted|..])
  }

  /** Every event due by the first clock reading of the pass is fired by it or
      deleted by a handler. */
  lemma DueEventFires(s: State, now: int, clock: Clock, handlers: Handlers, bound: int, t: Timer)
    requires PassOk(s, s.nextId - 1, clock, handlers, bound)
    requires t in StartPass(s, now).timers && Due(t, clock(s.tick))
    ensures FiredOrDeleted(s, Pass(s, now, clock, handlers, bound), t.id)
  {
    hide MillisecondsOk, HandlersOk, Remaining, ClockOk, Scan;
    StartIsOk(s, now, clock, handlers, bound);
    var s' := StartPass(s, now);
    ScanAccounts(s', s', 0, s.nextId - 1, clock, handlers, bound, t);
    PassGuarantees(s, now, clock, handlers, bound);
  }

  // The converse, for a clock that stands still.

  /** The event, if it is in the list, is the given one. */
  ghost predicate Waits(s: State, t: Timer) {
    t.id < s.nextId && forall i | 0 <= i < |s.timers| && s.timers[i].id == t.id :: s.timers[i] == t
  }

  lemma {:induction false} ActAllWaits(s: State, actions: seq<Action>, clock: Clock, t: Timer)
    requires Waits(s, t)
    ensures Waits(ActAll(s, actions, clock), t)
  {
    hide AddMilliseconds;
    if actions != [] { ActAllWaits(s, actions[..|actions| - 1], clock, t); }
  }

  lemma FireWaits(s: State, id: int, clock: Clock, handlers: Handlers, t: Timer)
    requires Waits(s, t) && t.id != id
    ensures Waits(Fire(s, id, clock, handlers), t)
  {
    hide AddMilliseconds, ActAll;
    ActAllWaits(s.(fired := s.fired + [id]), handlers(|s.fired|, id).actions, clock, t);
  }

  lemma {:induction false} ScanWaits(start: State, s: State, k: nat, maxId: int, clock: Clock, handlers: Handlers,
                                     bound: int, t: Timer)
    requires k <= |s.timers| && PassOk(s, maxId, clock, handlers, bound)
    requires Waits(s, t) && forall n :: !Due(t, clock(n))
    requires start.fired <= s.fired && t.id !in s.fired[|start.fired|..]
    ensures var r := Scan(s, k, maxId, clock, handlers, bound);
            start.fired <= r.fired && t.id !in r.fired[|start.fired|..]
    decreases Remaining(s.timers, UpTo(maxId), bound), |s.timers| - k
  {
    hide Fire, Remaining, Ordered, MillisecondsOk, HandlersOk, ClockOk;
    if k < |s.timers| {
      TickKeepsPassOk(s, maxId, clock, handlers, bound);
      if s.timers[k].id > maxId {
        ScanWaits(start, s, k + 1, maxId, clock, handlers, bound, t);
      } else if !Due(s.timers[k], clock(s.tick)) {
        ScanWaits(start, Tick(s), k + 1, maxId, clock, handlers, bound, t);
      } else {
        StepIsProgress(s, k, maxId, clock, handlers, bound);
        var id := s.timers[k].id;
        FireWaits(Tick(s), id, clock, handlers, t);
        FireRecords(Tick(s), id, clock, handlers);
        assert (s.fired + [id])[|start.fired|..] == s.fired[|start.fired|..] + [id];
        ScanWaits(start, Fire(Tick(s), id, clock, handlers), 0, maxId, clock, handlers, bound, t);
      }
    }
  }

  /** While the clock stands still, a pass fires only events that are due. */
  lemma OnlyDueEventFires(s: State, now: int, clock: Clock, handlers: Handlers, bound: int, t: Timer)
    requires PassOk(s, s.nextId - 1, clock, handlers, bound)
    requires forall k :: clock(k) == clock(s.tick)
    requires t in StartPass(s, now).timers && !Due(t, clock(s.tick))
    ensures var r := Pass(s, now, clock, handlers, bound); s.fired <= r.fired && t.id !in r.fired[|s.fired|..]
  {
    hide MillisecondsOk, HandlersOk, Remaining, ClockOk, Scan;
    StartIsOk(s, now, clock, handlers, bound);
    var s' := StartPass(s, now);
    var i :| 0 <= i < |s'.timers| && s'.timers[i] == t;
    ScanWaits(s', s', 0, s.nextId - 1, clock, handlers, bound, t);
  }

  /** If the clock did not go back, an event that is not due is neither fired nor
      changed while the clock stands still: unless a handler deletes it, it is in
      the list as before. */
  lemma NotDueEventStays(s: State, now: int, clock: Clock, handlers: Handlers, bound: int, t: Timer)
    requires PassOk(s, s.nextId - 1, clock, handlers, bound)
    requires forall k :: clock(k) == clock(s.tick)
    requires now >= s.lastTime && t in s.timers && !Due(t, clock(s.tick))
    ensures var r := Pass(s, now, clock, handlers, bound);
            && s.fired <= r.fired && t.id !in r.fired[|s.fired|..]
            && s.deleted <= r.deleted && (t in r.timers || t.id in r.deleted[|s.deleted|..])
  {
    hide MillisecondsOk, HandlersOk, Remaining, ClockOk, Scan;
    OnlyDueEventFires(s, now, clock, handlers, bound, t);
    StartIsOk(s, now, clock, handlers, bound);
    var s' := StartPass(s, now);
    ScanAccounts(s', s', 0, s.nextId - 1, clock, handlers, bound, t);
  }

  // Nothing but a handler deletes an event that is not fired.

  ghost predicate NeverDeletes(handlers: Handlers, id: int) {
    forall n, fired :: Delete(id) !in handlers(n, fired).actions
  }

  lemma {:induction false} ActAllSpares(s: State, actions: seq<Action>, clock: Clock, id: int)
    requires Delete(id) !in actions
    ensures var r := ActAll(s, actions, clock); s.deleted <= r.deleted && id !in r.deleted[|s.deleted|..]
  {
    hide AddMilliseconds, Remove;
    if actions != [] {
      var front, last := actions[..|actions| - 1], actions[|actions| - 1];
      ActAllSpares(s, front, clock, id);
      assert last in actions;
    }
  }

  lemma FireSpares(s: State, fired: int, clock: Clock, handlers: Handlers, id: int)
    requires NeverDeletes(handlers, id)
    ensures var r := Fire(s, fired, clock, handlers); s.deleted <= r.deleted && id !in r.deleted[|s.deleted|..]
  {
    hide ActAll, AddMilliseconds, Remove;
    ActAllSpares(s.(fired := s.fired + [fired]), handlers(|s.fired|, fired).actions, clock, id);
  }

  lemma {:induction false} ScanSpares(start: State, s: State, k: nat, maxId: int, clock: Clock, handlers: Handlers,
                                      bound: int, id: int)
    requires k <= |s.timers| && PassOk(s, maxId, clock, handlers, bound) && NeverDeletes(handlers, id)
    requires start.deleted <= s.deleted && id !in s.deleted[|start.deleted|..]
    ensures var r := Scan(s, k, maxId, clock, handlers, bound);
            start.deleted <= r.deleted && id !in r.deleted[|start.deleted|..]
    decreases Remaining(s.timers, UpTo(maxId), bound), |s.timers| - k
  {
    hide Fire, Remaining, Ordered, MillisecondsOk, HandlersOk, ClockOk, NeverDeletes;
    if k < |s.timers| {
      TickKeepsPassOk(s, maxId, clock, handlers, bound);
      if s.timers[k].id > maxId {
        ScanSpares(start, s, k + 1, maxId, clock, handlers, bound, id);
      } else if !Due(s.timers[k], clock(s.tick)) {
        ScanSpares(start, Tick(s), k + 1, maxId, clock, handlers, bound, id);
      } else {
        StepIsProgress(s, k, maxId, clock, handlers, bound);
        var s' := Fire(Tick(s), s.timers[k].id, clock, handlers);
        FireSpares(Tick(s), s.timers[k].id, clock, handlers, id);
        var n := |start.deleted|;
        assert s'.deleted[n..] == s.deleted[n..] + s'.deleted[|s.deleted|..];
        ScanSpares(start, s', 0, maxId, clock, handlers, bound, id);
      }
    }
  }

  lemma PassSpares(s: State, now: int, clock: Clock, handlers: Handlers, bound: int, id: int)
    requires PassOk(s, s.nextId - 1, clock, handlers, bound) && NeverDeletes(handlers, id)
    ensures var r := Pass(s, now, clock, handlers, bound);
            s.deleted <= r.deleted && id !in r.deleted[|s.deleted|..]
  {
    hide MillisecondsOk, HandlersOk, Remaining, ClockOk, Scan, NeverDeletes;
    StartIsOk(s, now, clock, handlers, bound);
    var s' := StartPass(s, now);
    ScanSpares(s', s', 0, s.nextId - 1, clock, handlers, bound, id);
  }

  /** Is the event due once its seconds are set to zero? In second 1 and later
      always, in second 0 if its milliseconds have passed. */
  predicate DueWithoutSeconds(t: Timer, now: Instant) {
    now.sec >= 1 || (now.sec == 0 && t.due.ms <= now.ms)
  }

  /** If the clock went back since the last pass, every event that is due without
      its seconds is fired by this pass or deleted by a handler. While the clock
      stands still, no other event is fired: an event that no handler deletes is
      fired if and only if it is due without its seconds. */
  lemma SkewFiresAll(s: State, now: int, clock: Clock, handlers: Handlers, bound: int, t: Timer)
    requires PassOk(s, s.nextId - 1, clock, handlers, bound)
    requires now < s.lastTime && t in s.timers
    ensures var r := Pass(s, now, clock, handlers, bound);
            && (DueWithoutSeconds(t, clock(s.tick)) ==> FiredOrDeleted(s, r, t.id))
            && ((forall k :: clock(k) == clock(s.tick)) && !DueWithoutSeconds(t, clock(s.tick)) ==>
                  s.fired <= r.fired && t.id !in r.fired[|s.fired|..])
            && ((forall k :: clock(k) == clock(s.tick)) && NeverDeletes(handlers, t.id) ==>
                  && (FiredOrDeleted(s, r, t.id) <==> DueWithoutSeconds(t, clock(s.tick)))
                  && s.fired <= r.fired
                  && (t.id in r.fired[|s.fired|..] <==> DueWithoutSeconds(t, clock(s.tick))))
  {
    hide MillisecondsOk, HandlersOk, Remaining, ClockOk, Pass, Ordered, NeverDeletes;
    var i :| 0 <= i < |s.timers| && s.timers[i] == t;
    var t' := StartPass(s, now).timers[i];
    PassGuarantees(s, now, clock, handlers, bound);
    if NeverDeletes(handlers, t.id) { PassSpares(s, now, clock, handlers, bound, t.id); }
    if DueWithoutSeconds(t, clock(s.tick)) {
      DueEventFires(s, now, clock, handlers, bound, t');
    } else if forall k :: clock(k) == clock(s.tick) {
      OnlyDueEventFires(s, now, clock, handlers, bound, t');
    }
  }

  /** An event that is neither fired nor deleted although the clock went back: in
      second 0 of the clock its milliseconds are still to come. */
  lemma SkewInSecondZeroCanWait(handlers: Handlers)
    requires HandlersOk(handlers)
    ensures var s := State([Timer(0, Instant(50, 500))], 1, 60, 0, [], []);
            var clock := (k: nat) => Instant(0, 100);
            && PassOk(s, s.nextId - 1, clock, handlers, 100)
            && var r := Pass(s, 0, clock, handlers, 100);
               r.timers == [Timer(0, Instant(0, 500))] && r.fired == [] && r.deleted == []
  {
    hide HandlersOk;
    var s := State([Timer(0, Instant(50, 500))], 1, 60, 0, [], []);
    var clock := (k: nat) => Instant(0, 100);
    StartIsOk(s, 0, clock, handlers, 100);
    var s' := StartPass(s, 0);
    assert s'.timers == [Timer(0, Instant(0, 500))];
    ScanStep(s', 0, 0, clock, handlers, 100);
    ScanEnd(Tick(s'), 0, clock, handlers, 100);
  }

  // ---------- the nearest event ----------

  /** The event at `k` is due no later than any, and before all earlier ones in
      the list: the first of the nearest. */
  ghost predicate IsNearest(timers: seq<Timer>, k: nat) {
    && k < |timers|
    && (forall i | 0 <= i < |timers| :: !Before(timers[i].due, timers[k].due))
    && (forall i | 0 <= i < k :: Before(timers[k].due, timers[i].due))
  }

  /** The position that the search ends with. */
  function NearestIndex(timers: seq<Timer>): (k: nat)
    requires timers != []
    ensures k < |timers|
  {
    var last := |timers| - 1;
    if last == 0 then 0 else
      var k := NearestIndex(timers[..last]);
      if Before(timers[last].due, timers[k].due) then last else k
  }

  lemma {:induction false} SearchFindsNearest(timers: seq<Timer>)
    requires timers != []
    ensures IsNearest(timers, NearestIndex(timers))
  {
    var last := |timers| - 1;
    if last > 0 { SearchFindsNearest(timers[..last]); }
  }

  // ---------- the time to sleep ----------

  /** The time out of the poll. */
  datatype Timeout = Forever | Sleep(sec: int, usec: int)

  function NotNegative(n: int): nat { if n < 0 then 0 else n }

  /** The time from `now` to `due`, in the arithmetic of the code. */
  function TimeUntil(due: Instant, now: Instant): Timeout {
    var sec, usec :=
      if due.ms < now.ms then due.sec - now.sec - 1 else due.sec - now.sec,
      if due.ms < now.ms then (due.ms + 1000 - now.ms) * 1000 else (due.ms - now.ms) * 1000;
    Sleep(NotNegative(sec), NotNegative(usec))
  }

  function PollTimeout(timeEvents: bool, dontWait: bool, timers: seq<Timer>, now: Instant): Timeout {
    if timeEvents && !dontWait && timers != [] then TimeUntil(timers[NearestIndex(timers)].due, now)
    else if dontWait then Sleep(0, 0) else Forever
  }

  /** Without an event to wait for it waits for ever, and not at all if it is told
      not to wait. */
  lemma WaitsForEverExactlyWhen(timeEvents: bool, dontWait: bool, timers: seq<Timer>, now: Instant)
    ensures var t := PollTimeout(timeEvents, dontWait, timers, now);
            && (t == Forever <==> !dontWait && (!timeEvents || timers == []))
            && (dontWait ==> t == Sleep(0, 0))
  {
  }

  /** The time is normal, and exact if the event is still to come. If it is
      overdue the seconds are cut to zero but a part of a second may be left. */
  lemma TimeUntilIsExact(due: Instant, now: Instant)
    requires Normal(due) && Normal(now)
    ensures var t := TimeUntil(due, now);
            && t.Sleep? && t.sec >= 0 && 0 <= t.usec < 1_000_000
            && (!Before(due, now) ==> t.sec * 1_000_000 + t.usec == (Total(due) - Total(now)) * 1000)
            && (Before(due, now) ==> t.sec == 0 && (t.usec == 0 <==> due.ms == now.ms))
  {
  }

  /** How long until an event is due, in microseconds; nothing if it is overdue. */
  function Distance(t: Timer, now: Instant): nat {
    NotNegative(Total(t.due) - Total(now)) * 1000
  }

  /** The sleep ends when the nearest event is due, and no event of the list is
      slept past, exactly when the nearest is not overdue by a part of a second.
      If it is, less than a second is slept. */
  lemma {:induction false} NeverSleepsPast(timers: seq<Timer>, now: Instant)
    requires timers != [] && Normal(now) && forall t | t in timers :: Normal(t.due)
    ensures var timeout := PollTimeout(true, false, timers, now);
            var nearest := timers[NearestIndex(timers)];
            var exact := !Before(nearest.due, now) || nearest.due.ms == now.ms;
            && timeout.Sleep?
            && var sleep := timeout.sec * 1_000_000 + timeout.usec;
               && (exact <==> sleep == Distance(nearest, now))
               && (exact <==> forall t | t in timers :: sleep <= Distance(t, now))
               && (!exact ==> sleep < 1_000_000)
  {
    hide TimeUntil;
    SearchFindsNearest(timers);
    var nearest := timers[NearestIndex(timers)];
    assert nearest in timers;
    TimeUntilIsExact(nearest.due, now);
    forall t | t in timers ensures Total(nearest.due) <= Total(t.due) {
      var i :| 0 <= i < |timers| && timers[i] == t;
      assert !Before(timers[i].due, nearest.due);
    }
  }
}

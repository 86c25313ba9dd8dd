/** The timers of the event loop as the linked list the code keeps them in. */
module AeTimers {
  import opened TimerPass

  class TimeEvent {
    const id: int
    var due: Instant
    var next: TimeEvent?

    constructor (id: int, due: Instant, next: TimeEvent?)
      ensures this.id == id && this.due == due && this.next == next
    {
      this.id, this.due, this.next := id, due, next;
    }
  }

  class EventLoop {
    var head: TimeEvent?
    var nextId: int
    var lastTime: int
    // What the environment sees: the clock readings taken so far, the events
    // called and the events that handlers deleted.
    var tick: nat
    var fired: seq<int>
    var deleted: seq<int>
    /** The list from the head on. */
    ghost var nodes: seq<TimeEvent>

    ghost predicate Valid()
      reads this, nodes
    {
      && head == (if nodes == [] then null else nodes[0])
      && (forall i {:trigger nodes[i].next} | 0 <= i < |nodes| - 1 :: nodes[i].next == nodes[i + 1])
      && (nodes != [] ==> nodes[|nodes| - 1].next == null)
      && (forall i, j | 0 <= i < j < |nodes| :: nodes[i] != nodes[j])
    }

    ghost function Timers(): (r: seq<Timer>)
      reads this, nodes
      ensures |r| == |nodes|
    {
      seq(|nodes|, i requires 0 <= i < |nodes| reads this, nodes => Timer(nodes[i].id, nodes[i].due))
    }

    ghost function View(): State
      reads this, nodes
    {
      State(Timers(), nextId, lastTime, tick, fired, deleted)
    }

    constructor (now: int)
      ensures Valid() && View() == State([], 0, now, 0, [], [])
    {
      head, nextId, lastTime := null, 0, now;
      nodes, tick, fired, deleted := [], 0, [], [];
    }

    /** `aeCreateTimeEvent`: push at the head. */
    method CreateTimeEvent(delay: int, clock: Clock) returns (id: int)
      requires Valid()
      modifies this
      ensures Valid() && (forall i | 0 <= i < |nodes| :: nodes[i] in old(nodes) || fresh(nodes[i]))
      ensures id == old(nextId) && View() == CreateTimer(old(View()), delay, clock)
      ensures forall n | n in old(nodes) :: n in nodes
    {
      hide AddMilliseconds;
      id := nextId;
      nextId := nextId + 1;
      var te := new TimeEvent(id, AddMilliseconds(clock(tick), delay), head);
      tick := tick + 1;
      head := te;
      nodes := [te] + nodes;
      assert forall i | 1 <= i < |nodes| :: nodes[i] == old(nodes)[i - 1] && nodes[i].next == old(nodes[i - 1].next);
      assert Timers() == [Timer(te.id, te.due)] + old(Timers());
    }

    /** Takes the node at `k`, whose predecessor is known, out of the list. */
    method Unlink(prev: TimeEvent?, te: TimeEvent, ghost k: nat)
      requires Valid() && k < |nodes| && te == nodes[k]
      requires prev == if k == 0 then null else nodes[k - 1]
      requires forall i | 0 <= i < k :: nodes[i].id != te.id
      modifies this, nodes
      ensures Valid() && nodes == old(nodes)[..k] + old(nodes)[k + 1..]
      ensures forall n | n in old(nodes) && n != te :: n in nodes
      ensures View() == DeleteTimer(old(View()), te.id)
    {
      ghost var before := Timers();
      if prev == null { head := te.next; } else { prev.next := te.next; }
      nodes := nodes[..k] + nodes[k + 1..];
      assert Timers() == before[..k] + before[k + 1..];
      RemoveAt(before, k);
    }

    /** `aeDeleteTimeEvent`: unlink the first node with this id. */
    method DeleteTimeEvent(id: int) returns (found: bool)
      requires Valid()
      modifies this, nodes
      ensures Valid() && (forall i | 0 <= i < |nodes| :: nodes[i] in old(nodes) || fresh(nodes[i]))
      ensures View() == DeleteTimer(old(View()), id)
      ensures found <==> exists t :: t in old(Timers()) && t.id == id
      ensures forall n | n in old(nodes) && n.id != id :: n in nodes
    {
      var te := head;
      var prev: TimeEvent? := null;
      ghost var k := 0;
      while te != null
        invariant Valid() && View() == old(View()) && nodes == old(nodes)
        invariant k <= |nodes|
        invariant te == if k < |nodes| then nodes[k] else null
        invariant prev == if k == 0 then null else nodes[k - 1]
        invariant forall i | 0 <= i < k :: nodes[i].id != id
        decreases |nodes| - k
      {
        if te.id == id {
          Unlink(prev, te, k);
          assert old(Timers())[k].id == id;
          return true;
        }
        assert nodes[k].next == if k + 1 < |nodes| then nodes[k + 1] else null;
        prev := te;
        te := te.next;
        k := k + 1;
      }
      assert forall i | 0 <= i < |nodes| :: Timers()[i].id == nodes[i].id;
      return false;
    }

    /** `aeSearchNearestTimer` */
    method SearchNearestTimer() returns (nearest: TimeEvent?)
      requires Valid()
      ensures nearest == if nodes == [] then null else nodes[NearestIndex(Timers())]
    {
      var te := head;
      nearest := null;
      ghost var i := 0;
      while te != null
        invariant i <= |nodes| && te == if i < |nodes| then nodes[i] else null
        invariant nearest == if i == 0 then null else nodes[NearestIndex(Timers()[..i])]
        decreases |nodes| - i
      {
        assert Timers()[..i + 1][..i] == Timers()[..i];
        if nearest == null || Before(te.due, nearest.due) {
          nearest := te;
        }
        te := te.next;
        i := i + 1;
      }
      assert Timers()[..i] == Timers();
    }

    method Perform(a: Action, clock: Clock)
      requires Valid()
      modifies this, nodes
      ensures Valid() && (forall i | 0 <= i < |nodes| :: nodes[i] in old(nodes) || fresh(nodes[i]))
      ensures View() == Act(old(View()), a, clock)
      ensures forall n | n in old(nodes) && a != Delete(n.id) :: n in nodes
    {
      hide CreateTimer, Remove;
      match a {
        case Create(delay) =>
          var _ := CreateTimeEvent(delay, clock);
        case Delete(id) =>
          var _ := DeleteTimeEvent(id);
          deleted := deleted + [id];
      }
    }

    method RunHandler(actions: seq<Action>, clock: Clock)
      requires Valid()
      modifies this, nodes
      ensures Valid() && (forall i | 0 <= i < |nodes| :: nodes[i] in old(nodes) || fresh(nodes[i]))
      ensures View() == ActAll(old(View()), actions, clock)
      ensures forall n | n in old(nodes) && Delete(n.id) !in actions :: n in nodes
    {
      hide Act;
      var i := 0;
      while i < |actions|
        invariant i <= |actions| && Valid()
        invariant forall j | 0 <= j < |nodes| :: nodes[j] in old(nodes) || fresh(nodes[j])
        invariant View() == ActAll(old(View()), actions[..i], clock)
        invariant forall n | n in old(nodes) && Delete(n.id) !in actions :: n in nodes
      {
        assert actions[..i + 1][..i] == actions[..i];
        assert actions[i] in actions;
        Perform(actions[i], clock);
        i := i + 1;
      }
      assert actions[..i] == actions;
    }

    /** The clock went back: make every event due at second 0. */
    method ForceAll()
      requires Valid()
      modifies nodes
      ensures Valid() && Timers() == ZeroSeconds(old(Timers()))
    {
      var te := head;
      ghost var k := 0;
      while te != null
        invariant k <= |nodes| && te == if k < |nodes| then nodes[k] else null
        invariant Valid()
        invariant forall i | 0 <= i < |nodes| ::
            nodes[i].due == if i < k then Instant(0, old(nodes[i].due.ms)) else old(nodes[i].due)
        decreases |nodes| - k
      {
        te.due := Instant(0, te.due.ms);
        te := te.next;
        k := k + 1;
      }
    }

    method Postpone(te: TimeEvent, due: Instant)
      requires Valid() && te in nodes && Ordered(View())
      modifies te`due
      ensures Valid() && Timers() == Reschedule(old(Timers()), te.id, due)
    {
      ghost var before := Timers();
      ghost var k :| 0 <= k < |nodes| && nodes[k] == te;
      assert before[k] == Timer(te.id, te.due);
      FindListed(View(), before[k]);
      te.due := due;
      assert Timers() == before[k := Timer(te.id, due)];
    }

    /** Calls the handler of `te`, then reschedules it or deletes it. */
    method FireEvent(te: TimeEvent, clock: Clock, handlers: Handlers)
      requires Valid() && te in nodes && Ordered(View()) && HandlersOk(handlers)
      modifies this, nodes
      ensures Valid() && (forall i | 0 <= i < |nodes| :: nodes[i] in old(nodes) || fresh(nodes[i]))
      ensures View() == Fire(old(View()), te.id, clock, handlers)
    {
      hide ActAll, AddMilliseconds, Ordered, Remove, Reschedule, HandlersOk;
      var id := te.id;
      var outcome := handlers(|fired|, id);
      CalledKeepsOrder(View(), id, outcome.actions, clock);
      HandlerKeepsOwnEvent(handlers, |fired|, id);
      ghost var called := View().(fired := fired + [id]);
      fired := fired + [id];
      assert View() == called;
      RunHandler(outcome.actions, clock);
      ghost var done := ActAll(called, outcome.actions, clock);
      assert View() == done;
      if outcome.retval != NOMORE {
        var due := AddMilliseconds(clock(tick), outcome.retval);
        Postpone(te, due);
        tick := tick + 1;
      } else {
        var _ := DeleteTimeEvent(id);
      }
    }

    /** The body of the loop for the node at `k`: fires it if it is due, and
        returns the node to go on with, at position `j`. */
    method Visit(te: TimeEvent, ghost k: nat, maxId: int, clock: Clock, handlers: Handlers, ghost bound: int)
      returns (next: TimeEvent?, ghost j: nat, called: bool)
      requires Valid() && k < |nodes| && te == nodes[k]
      requires PassOk(View(), maxId, clock, handlers, bound)
      modifies this, nodes
      ensures Valid() && (forall i | 0 <= i < |nodes| :: nodes[i] in old(nodes) || fresh(nodes[i]))
      ensures j <= |nodes| && next == if j < |nodes| then nodes[j] else null
      ensures PassOk(View(), maxId, clock, handlers, bound)
      ensures Scan(View(), j, maxId, clock, handlers, bound) == Scan(old(View()), k, maxId, clock, handlers, bound)
      ensures |fired| == |old(fired)| + if called then 1 else 0
      ensures || Remaining(Timers(), UpTo(maxId), bound) < Remaining(old(Timers()), UpTo(maxId), bound)
              || (Timers() == old(Timers()) && j == k + 1)
    {
      hide Fire, PassOk, Remaining, Scan;
      ghost var before := View();
      ScanStep(before, k, maxId, clock, handlers, bound);
      assert before.timers[k] == Timer(te.id, te.due);
      if te.id > maxId {
        return te.next, k + 1, false;
      }
      var time := clock(tick);
      tick := tick + 1;
      assert View() == Tick(before);
      if Before(time, te.due) {
        return te.next, k + 1, false;
      }
      StepIsProgress(before, k, maxId, clock, handlers, bound);
      OrderedOfPass(View(), maxId, clock, handlers, bound);
      FireRecords(View(), te.id, clock, handlers);
      FireEvent(te, clock, handlers);
      return head, 0, true;
    }

    method CheckClock(now: int)
      requires Valid()
      modifies this, nodes
      ensures Valid() && nodes == old(nodes) && View() == StartPass(old(View()), now)
    {
      if now < lastTime { ForceAll(); }
      lastTime := now;
    }

    /** How long to sleep in the poll: until the nearest event is due. */
    method SleepTime(timeEvents: bool, dontWait: bool, clock: Clock) returns (timeout: Timeout)
      requires Valid()
      modifies `tick
      ensures timeout == PollTimeout(timeEvents, dontWait, old(Timers()), clock(old(tick)))
      ensures Timers() == old(Timers())
    {
      var shortest: TimeEvent? := null;
      if timeEvents && !dontWait { shortest := SearchNearestTimer(); }
      if shortest != null {
        timeout := TimeUntil(shortest.due, clock(tick));
        tick := tick + 1;
      } else {
        timeout := if dontWait then Sleep(0, 0) else Forever;
      }
    }

    /** `processTimeEvents` */
    method ProcessTimeEvents(now: int, clock: Clock, handlers: Handlers, ghost bound: int) returns (processed: nat)
      requires Valid() && PassOk(View(), nextId - 1, clock, handlers, bound)
      modifies this, nodes
      ensures Valid() && (forall i | 0 <= i < |nodes| :: nodes[i] in old(nodes) || fresh(nodes[i]))
      ensures View() == Pass(old(View()), now, clock, handlers, bound)
      ensures processed == |fired| - |old(fired)|
    {
      hide Fire, PassOk, Remaining, Scan;
      processed := 0;
      StartIsOk(View(), now, clock, handlers, bound);
      CheckClock(now);
      var te := head;
      var maxId := nextId - 1;
      ghost var k: nat := 0;
      while te != null
        invariant Valid() && (forall i | 0 <= i < |nodes| :: nodes[i] in old(nodes) || fresh(nodes[i]))
        invariant k <= |nodes| && te == if k < |nodes| then nodes[k] else null
        invariant PassOk(View(), maxId, clock, handlers, bound)
        invariant Scan(View(), k, maxId, clock, handlers, bound) == Pass(old(View()), now, clock, handlers, bound)
        invariant processed == |fired| - |old(fired)|
        decreases Remaining(Timers(), UpTo(maxId), bound), |nodes| - k
      {
        var called: bool;
        te, k, called := Visit(te, k, maxId, clock, handlers, bound);
        if called { processed := processed + 1; }
      }
      ScanEnd(View(), maxId, clock, handlers, bound);
    }

    method Operate(op: Operation)
      requires Valid() && Ordered(View()) && MillisecondsOk(View()) && OperationOk(op)
      modifies this, nodes
      ensures Valid() && (forall i | 0 <= i < |nodes| :: nodes[i] in old(nodes) || fresh(nodes[i]))
      ensures View() == RunStep(old(View()), op)
    {
      hide AddMilliseconds, Remove, Pass;
      match op {
        case DoCreate(delay, clock) =>
          var _ := CreateTimeEvent(delay, clock);
        case DoDelete(id) =>
          var _ := DeleteTimeEvent(id);
        case DoPass(now, clock, bound, handlers) =>
          var _ := ProcessTimeEvents(now, clock, handlers, bound);
      }
    }
  }

  /** Whatever a program does with its timers, the linked list is the sequence
      that the same operations give. */
  method OperateAll(operations: seq<Operation>, lastTime: int) returns (l: EventLoop)
    requires forall i | 0 <= i < |operations| :: OperationOk(operations[i])
    ensures l.Valid() && l.View() == RunAll(operations, lastTime)
  {
    hide RunStep, OperationOk, Ordered, MillisecondsOk;
    l := new EventLoop(lastTime);
    var i := 0;
    assert operations[..0] == [];
    while i < |operations|
      invariant i <= |operations| && fresh(l) && l.Valid() && fresh(set n | n in l.nodes)
      invariant l.View() == RunAll(operations[..i], lastTime)
    {
      assert operations[..i + 1][..i] == operations[..i];
      l.Operate(operations[i]);
      i := i + 1;
    }
    assert operations[..i] == operations;
  }
}

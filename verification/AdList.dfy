/** The doubly linked list of adlist.c. */
module AdList {
  import opened Js
  import opened SeqOps

  class ListNode<T> {
    var prev: ListNode?<T>
    var next: ListNode?<T>
    var value: T

    constructor (value: T)
      ensures this.value == value && prev == null && next == null
    {
      this.value, prev, next := value, null, null;
    }
  }

  class List<T(==)> {
    var head: ListNode?<T>
    var tail: ListNode?<T>
    var len: nat
    /** The nodes from the head on. */
    ghost var nodes: seq<ListNode<T>>

    ghost predicate Valid()
      reads this, nodes
    {
      && len == |nodes|
      && (if nodes == [] then head == null && tail == null else head == nodes[0] && tail == nodes[|nodes| - 1])
      && Chained(nodes)
    }

    /** Different nodes, each linked to its neighbours. */
    static ghost predicate Chained(nodes: seq<ListNode<T>>)
      reads nodes
    {
      && (nodes != [] ==> nodes[0].prev == null && nodes[|nodes| - 1].next == null)
      && (forall i {:trigger nodes[i].next} | 0 <= i < |nodes| - 1 :: nodes[i].next == nodes[i + 1])
      && (forall i {:trigger nodes[i].prev} | 1 <= i < |nodes| :: nodes[i].prev == nodes[i - 1])
      && (forall i, j | 0 <= i < j < |nodes| :: nodes[i] != nodes[j])
    }

    ghost function Contents(): (s: seq<T>)
      reads `nodes, nodes`value
      ensures |s| == |nodes|
    {
      Values(nodes)
    }

    static ghost function Values(nodes: seq<ListNode<T>>): (s: seq<T>)
      reads nodes`value
      ensures |s| == |nodes| && forall i | 0 <= i < |s| :: s[i] == nodes[i].value
    {
      if nodes == [] then [] else [nodes[0].value] + Values(nodes[1..])
    }

    // The sequence operations on the nodes are those on their values.

    static lemma {:induction false} ValuesOfInsert(nodes: seq<ListNode<T>>, k: nat, node: ListNode<T>)
      requires k <= |nodes|
      ensures Values(InsertAt(nodes, k, node)) == InsertAt(Values(nodes), k, node.value)
    {
      hide Values;
    }

    static lemma {:induction false} ValuesOfRemove(nodes: seq<ListNode<T>>, k: nat)
      requires k < |nodes|
      ensures Values(RemoveAt(nodes, k)) == RemoveAt(Values(nodes), k)
    {
      hide Values;
    }

    static lemma {:induction false} ValuesOfRotated(nodes: seq<ListNode<T>>)
      ensures Values(Rotated(nodes)) == Rotated(Values(nodes))
    {
      hide Values;
    }

    static lemma ValuesOfDirected(nodes: seq<ListNode<T>>, fromHead: bool)
      ensures Values(Directed(nodes, fromHead)) == Directed(Values(nodes), fromHead)
    {
      hide Values;
    }

    static lemma {:induction false} ValuesOfKept(nodes: seq<ListNode<T>>, drop: nat -> bool)
      ensures Values(Kept(nodes, drop)) == Kept(Values(nodes), drop)
      decreases |nodes|
    {
      hide Values;
      if nodes != [] {
        var last := |nodes| - 1;
        ValuesOfKept(nodes[..last], drop);
        assert Values(nodes)[..last] == Values(nodes[..last]);
      }
    }

    /** `listCreate` */
    constructor ()
      ensures Valid() && nodes == [] && Contents() == []
    {
      head, tail, len, nodes := null, null, 0, [];
    }

    /** `listAddNodeHead` */
    method AddNodeHead(value: T)
      requires Valid()
      modifies this, nodes
      ensures Valid() && Contents() == [value] + old(Contents())
      ensures |nodes| > 0 && nodes[1..] == old(nodes)
      ensures forall i | 0 <= i < |nodes| :: nodes[i] in old(nodes) || fresh(nodes[i])
    {
      hide Values;
      var node := new ListNode(value);
      if len == 0 {
        head, tail := node, node;
      } else {
        node.next := head;
        head.prev := node;
        head := node;
      }
      len := len + 1;
      nodes := [node] + nodes;
    }

    /** `listAddNodeTail` */
    method AddNodeTail(value: T)
      requires Valid()
      modifies this, nodes
      ensures Valid() && Contents() == old(Contents()) + [value]
      ensures |nodes| > 0 && nodes[..|nodes| - 1] == old(nodes)
      ensures forall i | 0 <= i < |nodes| :: nodes[i] in old(nodes) || fresh(nodes[i])
    {
      hide Values;
      var node := new ListNode(value);
      if len == 0 {
        head, tail := node, node;
      } else {
        node.prev := tail;
        tail.next := node;
        tail := node;
      }
      len := len + 1;
      nodes := nodes + [node];
    }

    lemma NeighboursAt(k: nat)
      requires Chained(nodes) && k < |nodes|
      ensures nodes[k].next == if k + 1 < |nodes| then nodes[k + 1] else null
      ensures nodes[k].prev == if k > 0 then nodes[k - 1] else null
      ensures forall i | 0 <= i < |nodes| && i != k :: nodes[i] != nodes[k]
    {
    }

    /** Completes an insertion: makes the neighbours of the node point to it. */
    method Link(node: ListNode<T>, ghost p: nat)
      requires p <= |nodes| && node !in nodes && len == |nodes| > 0 && Chained(nodes)
      requires node.prev == if p > 0 then nodes[p - 1] else null
      requires node.next == if p < |nodes| then nodes[p] else null
      requires head == if p == 0 then node else nodes[0]
      requires tail == if p == |nodes| then node else nodes[|nodes| - 1]
      modifies `len, `nodes, nodes`prev, nodes`next
      ensures Valid() && nodes == InsertAt(old(nodes), p, node)
    {
      if node.prev != null { node.prev.next := node; }
      if node.next != null { node.next.prev := node; }
      len := len + 1;
      nodes := InsertAt(nodes, p, node);
    }

    /** `listInsertNode`: before or after the node at position `k`. */
    method InsertNode(oldNode: ListNode<T>, value: T, after: bool, ghost k: nat)
      requires Valid() && k < |nodes| && nodes[k] == oldNode
      modifies this, nodes
      ensures Valid() && Contents() == InsertAt(old(Contents()), if after then k + 1 else k, value)
      ensures var p := if after then k + 1 else k;
              nodes == InsertAt(old(nodes), p, nodes[p])
      ensures forall i | 0 <= i < |nodes| :: nodes[i] in old(nodes) || fresh(nodes[i])
    {
      hide Values, InsertAt, Chained;
      var node := new ListNode(value);
      if after {
        node.prev := oldNode;
        node.next := oldNode.next;
        if tail == oldNode { tail := node; }
      } else {
        node.next := oldNode;
        node.prev := oldNode.prev;
        if head == oldNode { head := node; }
      }
      ghost var p := if after then k + 1 else k;
      NeighboursAt(k);
      Link(node, p);
      NothingElseIsInserted(old(nodes), p, node);
      ValuesOfInsert(old(nodes), p, node);
      assert Values(old(nodes)) == old(Contents());
    }

    lemma NextNodes()
      requires Valid()
      ensures head == if nodes == [] then null else nodes[0]
      ensures forall i {:trigger nodes[i].next} | 0 <= i < |nodes| ::
                nodes[i].next == if i + 1 < |nodes| then nodes[i + 1] else null
    {
    }

    method Unlink(node: ListNode<T>, ghost k: nat)
      requires Valid() && k < |nodes| && nodes[k] == node
      modifies `head, `tail, `len, `nodes, nodes`prev, nodes`next
      ensures Valid() && nodes == RemoveAt(old(nodes), k)
    {
      NeighboursAt(k);
      if node.prev != null { node.prev.next := node.next; } else { head := node.next; }
      if node.next != null { node.next.prev := node.prev; } else { tail := node.prev; }
      len := len - 1;
      nodes := RemoveAt(nodes, k);
    }

    /** `listDelNode`, for the node at position `k`. */
    method DelNode(node: ListNode<T>, ghost k: nat)
      requires Valid() && k < |nodes| && nodes[k] == node
      modifies `head, `tail, `len, `nodes, nodes`prev, nodes`next
      ensures Valid() && nodes == RemoveAt(old(nodes), k)
      ensures Contents() == RemoveAt(old(Contents()), k)
      ensures forall i | 0 <= i < |nodes| :: nodes[i] in old(nodes)
    {
      hide Values, RemoveAt, Chained;
      Unlink(node, k);
      NothingIsAdded(old(nodes), k);
      ValuesOfRemove(old(nodes), k);
      assert Values(old(nodes)) == old(Contents());
    }

    method TailToHead()
      requires Valid() && len > 1
      modifies `head, `tail, `nodes, nodes`prev, nodes`next
      ensures Valid() && nodes == Rotated(old(nodes))
    {
      var last := tail;
      tail := last.prev;
      tail.next := null;
      head.prev := last;
      last.prev := null;
      last.next := head;
      head := last;
      nodes := Rotated(nodes);
    }

    /** `listRotate` */
    method Rotate()
      requires Valid()
      modifies `head, `tail, `nodes, nodes`prev, nodes`next
      ensures Valid() && nodes == Rotated(old(nodes))
      ensures Contents() == Rotated(old(Contents()))
      ensures forall i | 0 <= i < |nodes| :: nodes[i] in old(nodes)
    {
      hide Values, Chained;
      if len > 1 { TailToHead(); }
      ValuesOfRotated(old(nodes));
      assert Values(old(nodes)) == old(Contents());
    }

    /** `listIndex` */
    method Index(index: int) returns (n: ListNode?<T>)
      requires Valid()
      ensures var k := Position(|nodes|, index); n == if k < |nodes| then nodes[k] else null
    {
      var i := index;
      if i < 0 {
        i := -i - 1;
        n := tail;
        ghost var k := 0;
        while i > 0 && n != null
          invariant 0 <= i && k + i == -index - 1 && k <= |nodes|
          invariant n == if k < |nodes| then nodes[|nodes| - 1 - k] else null
        {
          n := n.prev;
          i, k := i - 1, k + 1;
        }
      } else {
        n := head;
        ghost var k := 0;
        while i > 0 && n != null
          invariant 0 <= i && k + i == index && k <= |nodes|
          invariant n == if k < |nodes| then nodes[k] else null
        {
          n := n.next;
          i, k := i - 1, k + 1;
        }
      }
    }

    /** `listSearchKey`: the first element that matches, by the match function
        of the list or by equality. */
    method SearchKey(key: T, matches: Option<(T, T) -> bool>) returns (r: ListNode?<T>)
      requires Valid()
      ensures var k := FirstMatch(Contents(), key, matches); r == if k < |nodes| then nodes[k] else null
    {
      hide Values, Chained, Matches, FirstMatch;
      ghost var s := Contents();
      var iter := new ListIter(this, true);
      r := iter.Next();
      ghost var k := 0;
      if nodes != [] { NeighboursAt(0); }
      while r != null
        invariant k <= |nodes| && r == if k < |nodes| then nodes[k] else null
        invariant fresh(iter) && iter.fromHead
        invariant r != null ==> iter.next == if k + 1 < |nodes| then nodes[k + 1] else null
        invariant k <= FirstMatch(s, key, matches)
        decreases |nodes| - k
      {
        if Matches(r.value, key, matches) { return; }
        r := iter.Next();
        k := k + 1;
        if k < |nodes| { NeighboursAt(k); }
      }
    }

    /** Adds a copy of a value, if it can be copied. */
    method AddCopy(value: T, dup: Option<T -> Option<T>>) returns (ok: bool)
      requires Valid()
      modifies this, nodes
      ensures Valid() && (forall n | n in nodes :: n in old(nodes) || fresh(n))
      ensures match CopyOf(value, dup)
              case None => !ok
              case Some(x) => ok && Contents() == old(Contents()) + [x]
    {
      hide Values, Chained;
      var copied := Some(value);
      if dup.Some? {
        copied := dup.value(value);
        if copied.None? { return false; }
      }
      AddNodeTail(copied.value);
      return true;
    }

    /** `listDup`: the copy of every value in order, or nothing if a value cannot
        be copied. The original is not written to. */
    method Dup(dup: Option<T -> Option<T>>) returns (copy: List?<T>)
      requires Valid()
      ensures copy == null <==> Copies(old(Contents()), dup).None?
      ensures copy != null ==> fresh(copy) && copy.Valid() && fresh(set n | n in copy.nodes)
      ensures copy != null ==> Copies(old(Contents()), dup) == Some(copy.Contents())
    {
      hide Values, Valid, Chained, CopyOf, Copies;
      NextNodes();
      ghost var s, r := Contents(), nodes;
      var result := new List<T>();
      var iter := new ListIter(this, true);
      var node := iter.Next();
      ghost var k := 0;
      CopiesOfNothing(dup);
      while node != null
        invariant k <= |r| && node == if k < |r| then r[k] else null
        invariant fresh(iter) && iter.fromHead
        invariant node != null ==> iter.next == if k + 1 < |r| then r[k + 1] else null
        invariant fresh(result) && result.Valid() && fresh(set n | n in result.nodes)
        invariant Copies(s[..k], dup) == Some(result.Contents())
        decreases |r| - k
      {
        CopiesStep(s, dup, k);
        var ok := result.AddCopy(node.value, dup);
        if !ok {
          NoCopies(s, dup, k + 1);
          return null;
        }
        assert k + 1 < |r| ==> r[k + 1].next == old(r[k + 1].next);
        node := iter.Next();
        k := k + 1;
      }
      assert s[..k] == s;
      return result;
    }

    method DropVisited(node: ListNode<T>, fromHead: bool, ghost j: nat, ghost rest: seq<ListNode<T>>)
      requires Valid() && j < |nodes|
      requires Directed(nodes, fromHead) == Directed(nodes, fromHead)[..j] + ([node] + rest)
      modifies `head, `tail, `len, `nodes, nodes`prev, nodes`next
      ensures Valid() && Directed(nodes, fromHead) == Directed(old(nodes), fromHead)[..j] + rest
      ensures forall i | 0 <= i < |nodes| :: nodes[i] in old(nodes)
    {
      hide Values, Valid, Chained, Directed, RemoveAt;
      RemoveVisited(nodes, fromHead, j, node, rest);
      DelNode(node, if fromHead then j else |nodes| - 1 - j);
    }

    /** The iterator's step through the list. */
    method Advance(iter: ListIter<T>, ghost j: nat) returns (node: ListNode?<T>)
      requires Valid() && j <= |nodes|
      requires var r := Directed(nodes, iter.fromHead); iter.next == if j < |r| then r[j] else null
      modifies iter
      ensures Valid() && iter.fromHead == old(iter.fromHead) && node == old(iter.next)
      ensures var r := Directed(nodes, iter.fromHead);
              node != null ==> iter.next == if j + 1 < |r| then r[j + 1] else null
    {
      node := iter.Next();
    }

    /** One round: the node is deleted or not, and the iterator steps on. */
    method DropOrKeep(iter: ListIter<T>, node: ListNode<T>, drop: bool,
                      ghost kept: seq<ListNode<T>>, ghost rest: seq<ListNode<T>>)
      returns (next: ListNode?<T>)
      requires Valid() && Directed(nodes, iter.fromHead) == kept + ([node] + rest)
      requires iter.next == if rest == [] then null else rest[0]
      modifies iter, `head, `tail, `len, `nodes, nodes`prev, nodes`next
      ensures Valid() && iter.fromHead == old(iter.fromHead) && next == old(iter.next)
      ensures Directed(nodes, iter.fromHead) == kept + (if drop then [] else [node]) + rest
      ensures next != null ==> iter.next == if 1 < |rest| then rest[1] else null
      ensures forall i | 0 <= i < |nodes| :: nodes[i] in old(nodes)
    {
      hide Values, Valid, Chained, Directed;
      Regroup(kept, node, rest);
      if drop {
        DropVisited(node, iter.fromHead, |kept|, rest);
      }
      ghost var front := kept + if drop then [] else [node];
      assert Directed(nodes, iter.fromHead) == front + rest;
      NextOfRest(front, rest, 0);
      next := Advance(iter, |front|);
    }

    lemma StartOf(fromHead: bool)
      requires Valid()
      ensures var r := Directed(nodes, fromHead);
              (if fromHead then head else tail) == if r == [] then null else r[0]
    {
    }

    method Walk(fromHead: bool, drop: nat -> bool) returns (visited: seq<ListNode<T>>)
      requires Valid()
      modifies `head, `tail, `len, `nodes, nodes`prev, nodes`next
      ensures Valid() && visited == Directed(old(nodes), fromHead)
      ensures Directed(nodes, fromHead) == Kept(visited, drop)
    {
      hide Values, Valid, Chained, Kept, Directed;
      ghost var r := Directed(nodes, fromHead);
      var iter := new ListIter(this, fromHead);
      visited := [];
      ghost var kept, rest := [], r;
      KeptOfNothing<ListNode<T>>(drop);
      StartOf(fromHead);
      var node := Advance(iter, 0);
      while node != null
        invariant node == if rest == [] then null else rest[0]
        invariant iter.fromHead == fromHead && fresh(iter)
        invariant node != null ==> iter.next == if 1 < |rest| then rest[1] else null
        invariant Valid() && forall i | 0 <= i < |nodes| :: nodes[i] in old(nodes)
        invariant Directed(nodes, fromHead) == kept + rest
        invariant r == visited + rest && kept == Kept(visited, drop)
        decreases |rest|
      {
        var current: ListNode<T>, k := node, |visited|;
        KeptMore(visited, drop, current);
        MoveOver(visited, rest);
        MoveOver(kept, rest);
        rest := rest[1..];
        node := DropOrKeep(iter, current, drop(k), kept, rest);
        kept := kept + if drop(k) then [] else [current];
        visited := visited + [current];
      }
    }

    /** A walk with an iterator that deletes some of the nodes it is given: all
        elements are visited, once and in order, and those not deleted remain. */
    method VisitAndDelete(fromHead: bool, drop: nat -> bool) returns (visited: seq<ListNode<T>>)
      requires Valid()
      modifies `head, `tail, `len, `nodes, nodes`prev, nodes`next
      ensures Valid() && visited == Directed(old(nodes), fromHead)
      ensures Directed(nodes, fromHead) == Kept(visited, drop)
      ensures Directed(Contents(), fromHead) == Kept(Directed(old(Contents()), fromHead), drop)
    {
      hide Values, Valid, Chained, Kept, Directed;
      ghost var r := Directed(nodes, fromHead);
      ghost var s := Values(r);
      ValuesOfDirected(nodes, fromHead);
      visited := Walk(fromHead, drop);
      ValuesOfDirected(nodes, fromHead);
      ValuesOfKept(r, drop);
      assert Values(r) == s;
    }

    /** One use of the list, on the node `listIndex` finds. */
    method Perform(use: Use<T>)
      requires Valid()
      modifies this, nodes
      ensures Valid() && Contents() == Used(old(Contents()), use)
      ensures forall i | 0 <= i < |nodes| :: nodes[i] in old(nodes) || fresh(nodes[i])
    {
      hide Values, Valid, Chained, InsertAt, RemoveAt, Rotated, Position;
      match use {
        case AddHead(x) => AddNodeHead(x);
        case AddTail(x) => AddNodeTail(x);
        case Insert(i, x, after) =>
          var node := Index(i);
          if node != null { InsertNode(node, x, after, Position(|nodes|, i)); }
        case Delete(i) =>
          var node := Index(i);
          if node != null { DelNode(node, Position(|nodes|, i)); }
        case Rotate => Rotate();
      }
    }

    /** Whatever is done with the list, its nodes represent the sequence that the
        same operations give on sequences. */
    method PerformAll(uses: seq<Use<T>>)
      requires Valid()
      modifies this, nodes
      ensures Valid() && Contents() == UsedAll(old(Contents()), uses)
    {
      hide Valid, Chained, Values, Used;
      var i := 0;
      assert uses[..0] == [];
      while i < |uses|
        invariant i <= |uses| && Valid() && Contents() == UsedAll(old(Contents()), uses[..i])
        invariant forall k | 0 <= k < |nodes| :: nodes[k] in old(nodes) || fresh(nodes[k])
      {
        assert uses[..i + 1][..i] == uses[..i];
        Perform(uses[i]);
        i := i + 1;
      }
      assert uses[..i] == uses;
    }
  }

  /** A use of the list by its owner; positions are those of `listIndex`. */
  datatype Use<T> =
    | AddHead(value: T)
    | AddTail(value: T)
    | Insert(index: int, value: T, after: bool)
    | Delete(index: int)
    | Rotate

  /** What it does to the sequence of the elements. */
  function Used<T>(s: seq<T>, use: Use<T>): seq<T> {
    match use
    case AddHead(x) => [x] + s
    case AddTail(x) => s + [x]
    case Insert(i, x, after) =>
      var k := Position(|s|, i);
      if k == |s| then s else InsertAt(s, if after then k + 1 else k, x)
    case Delete(i) =>
      var k := Position(|s|, i);
      if k == |s| then s else RemoveAt(s, k)
    case Rotate => Rotated(s)
  }

  function UsedAll<T>(s: seq<T>, uses: seq<Use<T>>): seq<T> {
    if uses == [] then s else Used(UsedAll(s, uses[..|uses| - 1]), uses[|uses| - 1])
  }

  /** What is added is where it was put, and deleting it there undoes the use. */
  lemma AddedCanBeDeleted<T>(s: seq<T>, x: T)
    ensures var r := Used(s, AddHead(x)); |r| == |s| + 1 && r[0] == x && Used(r, Delete(0)) == s
    ensures var r := Used(s, AddTail(x)); |r| == |s| + 1 && r[|s|] == x && Used(r, Delete(-1)) == s
  {
    hide InsertAt, RemoveAt;
    RemovingUndoesInserting(s, 0, x);
    RemovingUndoesInserting(s, |s|, x);
  }

  lemma InsertedCanBeDeleted<T>(s: seq<T>, i: int, x: T, after: bool)
    ensures 0 <= i < |s| ==>
              var r, at := Used(s, Insert(i, x, after)), if after then i + 1 else i;
              |r| == |s| + 1 && r[at] == x && Used(r, Delete(at)) == s
    ensures i >= |s| || i < -|s| ==> Used(s, Insert(i, x, after)) == s && Used(s, Delete(i)) == s
  {
    hide InsertAt, RemoveAt;
    if 0 <= i < |s| { RemovingUndoesInserting(s, if after then i + 1 else i, x); }
  }

  /** What was deleted can be inserted again, before what followed it. */
  lemma DeletedCanBeAdded<T>(s: seq<T>, i: nat)
    requires i < |s|
    ensures var r := Used(s, Delete(i));
            |r| == |s| - 1 &&
            s == if i < |r| then Used(r, Insert(i, s[i], false)) else Used(r, AddTail(s[i]))
  {
    hide InsertAt, RemoveAt;
    InsertingUndoesRemoving(s, i);
  }

  /** The last value becomes the first. */
  lemma RotationMovesLast<T>(s: seq<T>)
    ensures s == [] ==> Used(s, Rotate) == []
    ensures s != [] ==> Used(s, Rotate) == [s[|s| - 1]] + s[..|s| - 1]
    ensures UsedAll(s, seq(|s|, _ => Rotate)) == s
  {
    RotateAgain(s, |s|);
    RotatingFullCircle(s);
  }

  lemma {:induction false} RotateAgain<T>(s: seq<T>, n: nat)
    ensures UsedAll(s, seq(n, _ => Rotate)) == RotatedTimes(s, n)
  {
    hide Rotated;
    if n > 0 {
      var uses: seq<Use<T>> := seq(n, _ => Rotate);
      assert uses[..n - 1] == seq(n - 1, _ => Rotate);
      RotateAgain(s, n - 1);
    }
  }

  /** Uses are made one after the other. */
  lemma {:induction false} UsedAllAppend<T>(s: seq<T>, a: seq<Use<T>>, b: seq<Use<T>>)
    ensures UsedAll(s, []) == s
    ensures b != [] ==> UsedAll(s, [b[0]]) == Used(s, b[0])
    ensures UsedAll(s, a + b) == UsedAll(UsedAll(s, a), b)
    decreases |b|
  {
    hide Used;
    if b == [] {
      assert a + b == a;
    } else {
      assert (a + b)[..|a + b| - 1] == a + b[..|b| - 1];
      assert [b[0]][..0] == [];
      UsedAllAppend(s, a, b[..|b| - 1]);
    }
  }

  /** The iterator: the next node, and the direction. */
  class ListIter<T(==)> {
    var next: ListNode?<T>
    var fromHead: bool

    /** `listGetIterator` */
    constructor (list: List<T>, fromHead: bool)
      ensures this.fromHead == fromHead && next == if fromHead then list.head else list.tail
    {
      this.next := if fromHead then list.head else list.tail;
      this.fromHead := fromHead;
    }

    /** `listNext` */
    method Next() returns (current: ListNode?<T>)
      modifies this
      ensures fromHead == old(fromHead) && current == old(next)
      ensures next == if current == null then null else if fromHead then current.next else current.prev
    {
      current := next;
      if current != null {
        next := if fromHead then current.next else current.prev;
      }
    }
  }

  predicate Matches<T(==)>(value: T, key: T, matches: Option<(T, T) -> bool>) {
    if matches.Some? then matches.value(value, key) else value == key
  }

  /** The position of the first match, or the length. */
  function FirstMatch<T(==)>(s: seq<T>, key: T, matches: Option<(T, T) -> bool>): (k: nat)
    ensures k <= |s| && (k < |s| ==> Matches(s[k], key, matches))
    ensures forall i | 0 <= i < k :: !Matches(s[i], key, matches)
  {
    if s == [] || Matches(s[0], key, matches) then 0 else 1 + FirstMatch(s[1..], key, matches)
  }

  /** It is the first equal value, or by the match function the first that
      matches; the length only if there is none. */
  lemma FirstMatchIsFirst<T>(s: seq<T>, key: T, matches: Option<(T, T) -> bool>)
    ensures var k := FirstMatch(s, key, matches);
            if matches.None? then k < |s| <==> key in s
            else k < |s| <==> exists i :: 0 <= i < |s| && matches.value(s[i], key)
    ensures var k := FirstMatch(s, key, matches);
            k < |s| ==> if matches.None? then s[k] == key && key !in s[..k]
                        else matches.value(s[k], key) && forall i | 0 <= i < k :: !matches.value(s[i], key)
  {
    var k := FirstMatch(s, key, matches);
    assert k < |s| ==> Matches(s[k], key, matches);
    assert k == |s| ==> forall i | 0 <= i < |s| :: !Matches(s[i], key, matches);
  }

  /** A list without a dup function shares the values. */
  function CopyOf<T>(value: T, dup: Option<T -> Option<T>>): Option<T> {
    if dup.Some? then dup.value(value) else Some(value)
  }

  function Copies<T>(s: seq<T>, dup: Option<T -> Option<T>>): Option<seq<T>> {
    if s == [] then Some([]) else
      match Copies(s[..|s| - 1], dup)
      case None => None
      case Some(front) =>
        match CopyOf(s[|s| - 1], dup)
        case None => None
        case Some(x) => Some(front + [x])
  }

  lemma CopiesOfNothing<T>(dup: Option<T -> Option<T>>)
    ensures Copies([], dup) == Some([])
  {
  }

  lemma CopiesStep<T>(s: seq<T>, dup: Option<T -> Option<T>>, k: nat)
    requires k < |s| && Copies(s[..k], dup).Some?
    ensures Copies(s[..k + 1], dup) ==
            match CopyOf(s[k], dup) case None => None case Some(x) => Some(Copies(s[..k], dup).value + [x])
  {
    assert s[..k + 1][..k] == s[..k];
  }

  lemma {:induction false} NoCopies<T>(s: seq<T>, dup: Option<T -> Option<T>>, k: nat)
    requires k <= |s| && Copies(s[..k], dup).None?
    ensures Copies(s, dup).None?
    decreases |s|
  {
    if k == |s| {
      assert s[..k] == s;
    } else {
      assert s[..|s| - 1][..k] == s[..k];
      NoCopies(s[..|s| - 1], dup, k);
    }
  }

  /** The image of the list, when every value has a copy. Without a dup function
      that is always so, and the image is the list itself. */
  lemma {:induction false} CopiesAreImages<T>(s: seq<T>, dup: Option<T -> Option<T>>)
    ensures dup.Some? ==> (Copies(s, dup).Some? <==> forall i | 0 <= i < |s| :: dup.value(s[i]).Some?)
    ensures dup.Some? && Copies(s, dup).Some? ==>
              |Copies(s, dup).value| == |s| &&
              forall i | 0 <= i < |s| :: dup.value(s[i]) == Some(Copies(s, dup).value[i])
    ensures dup.None? ==> Copies(s, dup) == Some(s)
  {
    if s != [] {
      var front := s[..|s| - 1];
      CopiesAreImages(front, dup);
      assert s == front + [s[|s| - 1]];
      assert forall i | 0 <= i < |front| :: front[i] == s[i];
    }
  }
}

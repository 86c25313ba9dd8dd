/** What the operations of the doubly linked list mean for the sequence of its
    elements. */
module SeqOps {
  function InsertAt<T>(s: seq<T>, k: nat, x: T): (r: seq<T>)
    requires k <= |s|
    ensures |r| == |s| + 1 && r[k] == x
  {
    s[..k] + [x] + s[k..]
  }

  function RemoveAt<T>(s: seq<T>, k: nat): (r: seq<T>)
    requires k < |s|
    ensures |r| == |s| - 1
  {
    s[..k] + s[k + 1..]
  }

  lemma RemovingUndoesInserting<T>(s: seq<T>, k: nat, x: T)
    requires k <= |s|
    ensures RemoveAt(InsertAt(s, k, x), k) == s && InsertAt(s, k, x)[k] == x
    ensures InsertAt(s, 0, x) == [x] + s && InsertAt(s, |s|, x) == s + [x]
  {
  }

  lemma InsertingUndoesRemoving<T>(s: seq<T>, k: nat)
    requires k < |s|
    ensures InsertAt(RemoveAt(s, k), k, s[k]) == s
    ensures k == |s| - 1 ==> RemoveAt(s, k) + [s[k]] == s
  {
  }

  lemma NothingElseIsInserted<T>(s: seq<T>, k: nat, x: T)
    requires k <= |s|
    ensures var r := InsertAt(s, k, x); forall i | 0 <= i < |r| :: i == k || r[i] in s
  {
  }

  lemma NothingIsAdded<T>(s: seq<T>, k: nat)
    requires k < |s|
    ensures var r := RemoveAt(s, k); forall i | 0 <= i < |r| :: r[i] in s
  {
  }

  /** The last element becomes the first. */
  function Rotated<T>(s: seq<T>): (r: seq<T>)
    ensures |r| == |s|
  {
    if s == [] then s else [s[|s| - 1]] + s[..|s| - 1]
  }

  function RotatedTimes<T>(s: seq<T>, n: nat): (r: seq<T>)
    ensures |r| == |s|
  {
    if n == 0 then s else Rotated(RotatedTimes(s, n - 1))
  }

  lemma RotateSplit<T>(a: seq<T>, b: seq<T>, x: T)
    ensures Rotated(a + (b + [x])) == [x] + a + b
  {
    var s := a + (b + [x]);
    assert s[..|s| - 1] == a + b && s[|s| - 1] == x;
  }

  lemma {:induction false} RotatedTimesAt<T>(s: seq<T>, n: nat)
    requires n <= |s|
    ensures RotatedTimes(s, n) == s[|s| - n..] + s[..|s| - n]
  {
    hide Rotated;
    var m := |s| - n;
    if n == 0 {
      assert s[|s|..] + s[..|s|] == s;
    } else {
      RotatedTimesAt(s, n - 1);
      assert s[..m + 1] == s[..m] + [s[m]];
      RotateSplit(s[m + 1..], s[..m], s[m]);
      assert s[m..] == [s[m]] + s[m + 1..];
    }
  }

  /** Rotating as often as there are elements changes nothing. */
  lemma RotatingFullCircle<T>(s: seq<T>)
    ensures RotatedTimes(s, |s|) == s
  {
    RotatedTimesAt(s, |s|);
    assert s[0..] + s[..0] == s;
  }

  /** The position of index `i`: from the front if it is not negative, from the
      back if it is; the length if there is none. */
  function Position(n: nat, i: int): (k: nat)
    ensures k <= n
  {
    if 0 <= i < n then i
    else if 0 <= n + i < n then n + i
    else n
  }

  /** Index -1 is the last position, -2 the one before; -n is the first. */
  lemma PositionFromBack(n: nat, i: nat)
    ensures Position(n, i) == Position(n, i - n) || i >= n
    ensures i < n ==> Position(n, i) == i && Position(n, -1 - i) == n - 1 - i
    ensures i >= n ==> Position(n, i) == n && Position(n, -1 - i) == n
  {
  }

  /** The elements that are kept, when `drop` says which positions are not. */
  function Kept<T>(s: seq<T>, drop: nat -> bool): (r: seq<T>)
    ensures |r| <= |s|
  {
    if s == [] then [] else
      var last := |s| - 1;
      Kept(s[..last], drop) + if drop(last) then [] else [s[last]]
  }

  function Reversed<T>(s: seq<T>): (r: seq<T>)
    ensures |r| == |s| && forall i | 0 <= i < |s| :: r[i] == s[|s| - 1 - i]
  {
    seq(|s|, i requires 0 <= i < |s| => s[|s| - 1 - i])
  }

  lemma KeptMore<T>(s: seq<T>, drop: nat -> bool, x: T)
    ensures Kept(s + [x], drop) == Kept(s, drop) + if drop(|s|) then [] else [x]
  {
    assert (s + [x])[..|s|] == s;
  }

  lemma KeptOfNothing<T>(drop: nat -> bool)
    ensures Kept<T>([], drop) == []
  {
  }

  /** The elements as seen from the front or from the back. */
  function Directed<T>(s: seq<T>, forward: bool): (r: seq<T>)
    ensures |r| == |s| && forall i | 0 <= i < |s| :: r[i] == s[if forward then i else |s| - 1 - i]
  {
    if forward then s else Reversed(s)
  }

  lemma RemoveDirected<T>(s: seq<T>, forward: bool, j: nat)
    requires j < |s|
    ensures Directed(RemoveAt(s, if forward then j else |s| - 1 - j), forward) ==
            Directed(s, forward)[..j] + Directed(s, forward)[j + 1..]
  {
  }

  lemma RemoveVisited<T>(s: seq<T>, forward: bool, j: nat, x: T, rest: seq<T>)
    requires j < |s| && Directed(s, forward) == Directed(s, forward)[..j] + ([x] + rest)
    ensures var k := if forward then j else |s| - 1 - j;
            s[k] == x && Directed(RemoveAt(s, k), forward) == Directed(s, forward)[..j] + rest
  {
    hide Directed, RemoveAt;
    RemoveDirected(s, forward, j);
    var r := Directed(s, forward);
    assert r[j] == x && r[j + 1..] == rest;
  }

  lemma Regroup<T>(a: seq<T>, x: T, b: seq<T>)
    ensures a + ([x] + b) == (a + [x]) + b
    ensures (a + ([x] + b))[..|a|] == a
  {
  }

  lemma MoveOver<T>(a: seq<T>, b: seq<T>)
    requires b != []
    ensures a + b == a + ([b[0]] + b[1..]) == (a + [b[0]]) + b[1..]
  {
  }

  lemma NextOfRest<T>(a: seq<T>, r: seq<T>, k: nat)
    requires k <= |r|
    ensures k < |r| ==> (a + r[k..])[|a|] == r[k]
    ensures k + 1 < |r| ==> (a + r[k..])[|a| + 1] == r[k + 1]
  {
  }
}

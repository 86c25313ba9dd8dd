/** Keys joined from parts, and hashes read back from a flat reply
    (app/classes/__kekPHP/_Redis.php). */
module RedisKey {

  const DELIM := "-_-"

  datatype Response = Response(status: int, data: seq<string>)

  predicate DelimAt(s: string, i: nat) {
    i + 3 <= |s| && s[i] == '-' && s[i + 1] == '_' && s[i + 2] == '-'
  }

  /** The first occurrence of the delimiter, or the length. */
  function FindDelim(s: string, from: nat): (n: nat)
    requires from <= |s|
    ensures from <= n <= |s| && (n < |s| ==> DelimAt(s, n))
    ensures forall i | from <= i < n :: !DelimAt(s, i)
    decreases |s| - from
  {
    if from == |s| || DelimAt(s, from) then from else FindDelim(s, from + 1)
  }

  /** `explode`: split at the delimiters, found from the left. */
  function Explode(s: string): (parts: seq<string>)
    ensures parts != []
    decreases |s|
  {
    var n := FindDelim(s, 0);
    if n == |s| then [s] else [s[..n]] + Explode(s[n + 3..])
  }

  /** `implode` */
  function Implode(parts: seq<string>): string
    requires parts != []
  {
    if |parts| == 1 then parts[0] else parts[0] + DELIM + Implode(parts[1..])
  }

  /** `encode`, for a list of parts. */
  function Encode(parts: seq<string>): Response {
    if parts == [] then Response(0, []) else Response(1, [Implode(parts)])
  }

  /** `decode` */
  function Decode(key: string): Response {
    Response(1, Explode(key))
  }

  /** No part holds the delimiter, and none but the last ends in its beginning,
      which together with the next delimiter would give an earlier one. */
  predicate Separable(parts: seq<string>) {
    && (forall k, i | 0 <= k < |parts| && 0 <= i < |parts[k]| :: !DelimAt(parts[k], i))
    && (forall k | 0 <= k < |parts| - 1 :: !EndsInDash(parts[k]))
  }

  predicate EndsInDash(s: string) {
    |s| >= 2 && s[|s| - 2] == '-' && s[|s| - 1] == '_'
  }

  lemma FirstDelim(part: string, rest: string)
    requires (forall i: nat :: !DelimAt(part, i)) && !EndsInDash(part)
    ensures FindDelim(part + DELIM + rest, 0) == |part|
  {
    var s := part + DELIM + rest;
    assert DelimAt(s, |part|);
    forall i: nat | i < |part|
      ensures !DelimAt(s, i)
    {
      assert i + 2 < |part| ==> DelimAt(s, i) == DelimAt(part, i);
    }
  }

  lemma {:induction false} ExplodeOfImplode(parts: seq<string>)
    requires parts != [] && Separable(parts)
    ensures Explode(Implode(parts)) == parts
  {
    var s := Implode(parts);
    if |parts| == 1 {
      assert !DelimAt(parts[0], FindDelim(s, 0));
    } else {
      var rest := Implode(parts[1..]);
      FirstDelim(parts[0], rest);
      assert s == parts[0] + DELIM + rest && s[..|parts[0]|] == parts[0];
      assert s[|parts[0]| + 3..] == rest;
      assert forall k | 0 <= k < |parts| - 1 :: parts[1..][k] == parts[k + 1];
      ExplodeOfImplode(parts[1..]);
    }
  }

  lemma {:induction false} ExplodeIsSeparable(s: string)
    ensures Separable(Explode(s)) && Implode(Explode(s)) == s
    decreases |s|
  {
    var n := FindDelim(s, 0);
    if n < |s| {
      var part, rest := s[..n], s[n + 3..];
      ExplodeIsSeparable(rest);
      assert forall i: nat | i + 3 <= n :: DelimAt(part, i) == DelimAt(s, i);
      assert EndsInDash(part) ==> DelimAt(s, n - 2);
      assert s == part + DELIM + rest;
      assert Explode(s)[1..] == Explode(rest);
    } else {
      assert forall i: nat | i < |s| :: !DelimAt(s, i);
    }
  }

  /** A key is decoded into the parts it was made of exactly when the parts are
      separable. */
  lemma KeyRoundTrip(parts: seq<string>)
    requires parts != []
    ensures Encode(parts).status == 1 && |Encode(parts).data| == 1
    ensures Decode(Encode(parts).data[0]) == Response(1, parts) <==> Separable(parts)
  {
    ExplodeIsSeparable(Implode(parts));
    if Separable(parts) { ExplodeOfImplode(parts); }
  }

  /** An empty list of parts is an error. */
  lemma NothingIsNoKey(parts: seq<string>)
    ensures Encode(parts).status == 0 <==> parts == []
  {
  }

  /** Any key is the encoding of what it decodes to, and of nothing else that is
      separable. */
  lemma KeysAreUnambiguous(key: string, parts: seq<string>)
    requires Separable(parts)
    ensures Encode(Decode(key).data) == Response(1, [key])
    ensures Encode(parts) == Response(1, [key]) <==> Decode(key).data == parts
  {
    ExplodeIsSeparable(key);
    if parts != [] { ExplodeOfImplode(parts); }
  }

  // Hashes.

  datatype Pair = Pair(field: string, value: string)

  /** `empty` */
  predicate Empty(s: string) {
    s == "" || s == "0"
  }

  /** The reply to HGETALL: fields and values in turn. */
  function Reply(pairs: seq<Pair>): (r: seq<string>)
    ensures |r| == 2 * |pairs|
    ensures forall k | 0 <= k < |pairs| :: r[2 * k] == pairs[k].field && r[2 * k + 1] == pairs[k].value
  {
    if pairs == [] then [] else
      var last := pairs[|pairs| - 1];
      Reply(pairs[..|pairs| - 1]) + [last.field, last.value]
  }

  /** The pairs of a reply; a value that is missing is empty. */
  function PairsOf(r: seq<string>): (pairs: seq<Pair>)
    ensures |pairs| == (|r| + 1) / 2
  {
    var n := (|r| + 1) / 2;
    seq(n, k requires 0 <= k < n => Pair(r[2 * k], if 2 * k + 1 < |r| then r[2 * k + 1] else ""))
  }

  /** The hash with these fields; a later value replaces an earlier one. */
  function Hash(pairs: seq<Pair>): map<string, string> {
    if pairs == [] then map[] else
      var last := pairs[|pairs| - 1];
      Hash(pairs[..|pairs| - 1])[last.field := last.value]
  }

  function Stored(pairs: seq<Pair>): map<string, string> {
    if pairs == [] then map[] else
      var m, last := Stored(pairs[..|pairs| - 1]), pairs[|pairs| - 1];
      if Empty(last.field) then m else m[last.field := last.value]
  }

  /** What `hgetall` returns: a last field seen before keeps its value. */
  function ReadBack(pairs: seq<Pair>): map<string, string> {
    if pairs == [] then map[] else
      var m, last := Stored(pairs[..|pairs| - 1]), pairs[|pairs| - 1];
      if Empty(last.field) || last.field in m then m else m[last.field := last.value]
  }

  /** The pairing loop of `hgetall` */
  method HGetAll(response: seq<string>) returns (result: map<string, string>)
    ensures result == ReadBack(PairsOf(response))
  {
    result := map[];
    var prop, value, key := "", "", 0;
    while key < |response|
      invariant key <= |response|
      invariant key == 0 ==> result == map[] && prop == "" && value == ""
      invariant key > 0 ==>
                  var pairs := PairsOf(response[..key]);
                  var last := pairs[|pairs| - 1];
                  prop == last.field && value == last.value && result == Stored(pairs[..|pairs| - 1])
    {
      var val := response[key];
      PairsGrow(response, key);
      if key == 0 {
        prop := val;
      } else if key % 2 == 0 {
        if !Empty(prop) { result := result[prop := value]; }
        prop := val;
        value := "";
      } else {
        value := val;
      }
      key := key + 1;
    }
    assert response[..key] == response;
    if !Empty(prop) && prop !in result { result := result[prop := value]; }
  }

  /** The next element of a reply begins a pair or completes one. */
  lemma PairsGrow(r: seq<string>, key: nat)
    requires key < |r|
    ensures var before, after := PairsOf(r[..key]), PairsOf(r[..key + 1]);
            if key % 2 == 0 then after == before + [Pair(r[key], "")]
            else after == before[|before| - 1 := Pair(before[|before| - 1].field, r[key])]
  {
  }

  predicate Distinct(pairs: seq<Pair>) {
    forall i, j | 0 <= i < j < |pairs| :: pairs[i].field != pairs[j].field
  }

  lemma {:induction false} HashHoldsPairs(pairs: seq<Pair>)
    ensures forall f | f in Hash(pairs) :: exists i :: 0 <= i < |pairs| && pairs[i].field == f
    ensures forall i | 0 <= i < |pairs| :: pairs[i].field in Hash(pairs)
    ensures Distinct(pairs) ==> forall i | 0 <= i < |pairs| :: Hash(pairs)[pairs[i].field] == pairs[i].value
  {
    if pairs != [] {
      var n := |pairs| - 1;
      var front := pairs[..n];
      HashHoldsPairs(front);
      assert forall i | 0 <= i < n :: front[i] == pairs[i];
      forall f | f in Hash(pairs)
        ensures exists i :: 0 <= i < |pairs| && pairs[i].field == f
      {
        if f in Hash(front) {
          var i :| 0 <= i < n && front[i].field == f;
          assert pairs[i].field == f;
        } else {
          assert pairs[n].field == f;
        }
      }
    }
  }

  lemma {:induction false} StoredIsHash(pairs: seq<Pair>)
    ensures Stored(pairs) == Hash(pairs) - {"", "0"}
  {
    if pairs != [] {
      StoredIsHash(pairs[..|pairs| - 1]);
    }
  }

  lemma ReadBackIsStored(pairs: seq<Pair>)
    requires Distinct(pairs)
    ensures ReadBack(pairs) == Stored(pairs)
  {
    if pairs != [] {
      var front, last := pairs[..|pairs| - 1], pairs[|pairs| - 1];
      StoredIsHash(front);
      HashHoldsPairs(front);
      assert forall i | 0 <= i < |front| :: front[i] == pairs[i];
    }
  }

  lemma PairsOfReply(pairs: seq<Pair>)
    ensures PairsOf(Reply(pairs)) == pairs
  {
    hide Reply;
  }

  /** Of a reply that repeats fields, which no hash gives: the last value counts, but
      the last field of all keeps the value seen before. */
  lemma RepeatedFields(pairs: seq<Pair>, last: Pair)
    requires !Empty(last.field)
    ensures ReadBack(pairs + [last]) ==
            if exists i :: 0 <= i < |pairs| && pairs[i].field == last.field then Stored(pairs)
            else Stored(pairs)[last.field := last.value]
  {
    hide Hash, Stored, Empty;
    assert (pairs + [last])[..|pairs|] == pairs;
    StoredFields(pairs, last.field);
  }

  lemma StoredFields(pairs: seq<Pair>, field: string)
    requires !Empty(field)
    ensures field in Stored(pairs) <==> exists i :: 0 <= i < |pairs| && pairs[i].field == field
  {
    hide Hash, Stored;
    StoredIsHash(pairs);
    HashHoldsPairs(pairs);
  }

  /** The reply to a hash is read back as the hash without the fields that are
      `empty`: it is the hash exactly when there is none. */
  lemma HashRoundTrip(pairs: seq<Pair>)
    requires Distinct(pairs)
    ensures ReadBack(PairsOf(Reply(pairs))) == Hash(pairs) - {"", "0"}
    ensures ReadBack(PairsOf(Reply(pairs))) == Hash(pairs) <==> forall i | 0 <= i < |pairs| :: !Empty(pairs[i].field)
  {
    hide Hash, Stored, ReadBack, Reply, PairsOf, Distinct;
    PairsOfReply(pairs);
    ReadBackIsStored(pairs);
    StoredIsHash(pairs);
    HashHoldsPairs(pairs);
    WithoutNothing(Hash(pairs), {"", "0"});
  }

  lemma WithoutNothing<K, V>(m: map<K, V>, keys: set<K>)
    ensures m - keys == m <==> forall k | k in keys :: k !in m
  {
    assert forall k | k in m - keys :: k !in keys;
    if forall k | k in keys :: k !in m { assert m - keys == m; }
  }
}

/** The timestamp ids of the polling requests (module 32). */
module Yeast {
  import opened Js
  import opened Numerals

  const BASE := 64

  type Digit = x: int | 0 <= x < 64

  /** The character of a digit. */
  function Symbol(d: Digit): Unit {
    if d < 10 then ZERO + d
    else if d < 36 then 'A' as int + (d - 10)
    else if d < 62 then 'a' as int + (d - 36)
    else if d == 62 then DASH
    else '_' as int
  }

  /** The alphabet of the source: digits, letters, small letters, dash and
      underscore, each group in the order of the character codes. */
  lemma AlphabetInOrder()
    ensures Symbol(0) == '0' as int && Symbol(9) == '9' as int
    ensures Symbol(10) == 'A' as int && Symbol(35) == 'Z' as int
    ensures Symbol(36) == 'a' as int && Symbol(61) == 'z' as int
    ensures Symbol(62) == '-' as int && Symbol(63) == '_' as int
    ensures forall d: Digit | d < 63 && d !in {9, 35, 61, 62} :: Symbol(d + 1) == Symbol(d) + 1
  {
  }

  /** The digit of a character of the alphabet. */
  function DigitOf(c: Unit): Option<Digit> {
    if ZERO <= c <= NINE then Some(c - ZERO)
    else if 'A' as int <= c <= 'Z' as int then Some(c - 'A' as int + 10)
    else if 'a' as int <= c <= 'z' as int then Some(c - 'a' as int + 36)
    else if c == DASH then Some(62)
    else if c == '_' as int then Some(63)
    else None
  }

  function Symbols(ds: seq<nat>): (s: JsString)
    requires forall i | 0 <= i < |ds| :: ds[i] < BASE
    ensures |s| == |ds|
  {
    seq(|ds|, i requires 0 <= i < |ds| => Symbol(ds[i]))
  }

  function Encode(n: nat): (s: JsString)
    ensures |s| > 0
  {
    Symbols(Numeral(n, BASE))
  }

  /** A character outside the alphabet makes the result not a number. */
  function Decode(s: JsString): Option<nat> {
    if s == [] then Some(0)
    else
      match Decode(s[..|s| - 1])
      case None => None
      case Some(n) =>
        match DigitOf(s[|s| - 1])
        case None => None
        case Some(d) => Some(n * BASE + d)
  }

  /** The symbols of the digits still to be produced. */
  function Leading(num: nat): JsString {
    if num == 0 then [] else Encode(num)
  }

  lemma EncodeLastDigit(n: nat)
    ensures Encode(n) == Leading(n / BASE) + [Symbol(n % BASE)]
  {
    hide Symbol;
    if n >= BASE {
      DivSmaller(n, BASE);
      assert Numeral(n, BASE) == Numeral(n / BASE, BASE) + [n % BASE];
    }
  }

  method EncodeLoop(t: nat) returns (e: JsString)
    ensures e == Encode(t)
  {
    hide Encode, Symbol;
    var num: nat := t;
    EncodeLastDigit(num);
    e := [Symbol(num % BASE)];
    num := num / BASE;
    while num > 0
      invariant Leading(num) + e == Encode(t)
    {
      EncodeLastDigit(num);
      ConcatAssociative(Leading(num / BASE), [Symbol(num % BASE)], e);
      e := [Symbol(num % BASE)] + e;
      num := num / BASE;
    }
    assert [] + e == e;
  }

  method DecodeLoop(s: JsString) returns (r: Option<nat>)
    ensures r == Decode(s)
  {
    var decoded: nat := 0;
    var i := 0;
    while i < |s|
      invariant i <= |s| && Decode(s[..i]) == Some(decoded)
    {
      assert s[..i + 1][..i] == s[..i];
      var d := DigitOf(s[i]);
      if d.None? {
        DecodeOfBadPrefix(s, i + 1);
        return None;
      }
      decoded := decoded * BASE + d.value;
      i := i + 1;
    }
    assert s[..i] == s;
    return Some(decoded);
  }

  lemma {:induction false} DecodeOfBadPrefix(s: JsString, i: nat)
    requires i <= |s| && Decode(s[..i]).None?
    ensures Decode(s).None?
    decreases |s|
  {
    if i == |s| {
      assert s[..i] == s;
    } else {
      assert s[..|s| - 1][..i] == s[..i];
      DecodeOfBadPrefix(s[..|s| - 1], i);
    }
  }

  // ---------- the codec ----------

  lemma SymbolRoundTrip(d: Digit)
    ensures DigitOf(Symbol(d)) == Some(d) && Symbol(d) != DOT
  {
  }

  lemma DigitRoundTrip(c: Unit)
    requires DigitOf(c).Some?
    ensures Symbol(DigitOf(c).value) == c
  {
  }

  lemma {:induction false} DecodeSymbols(ds: seq<nat>)
    requires forall i | 0 <= i < |ds| :: ds[i] < BASE
    ensures Decode(Symbols(ds)) == Some(Value(ds, BASE))
  {
    hide DigitOf, Symbol;
    if ds != [] {
      var front := ds[..|ds| - 1];
      assert Symbols(ds)[..|ds| - 1] == Symbols(front);
      DecodeSymbols(front);
      SymbolRoundTrip(ds[|ds| - 1]);
    }
  }

  lemma RoundTrip(n: nat)
    ensures Decode(Encode(n)) == Some(n)
  {
    DecodeSymbols(Numeral(n, BASE));
    ValueOfNumeral(n, BASE);
  }

  /** No other text with the same value is shorter. */
  lemma EncodeIsShortest(s: JsString, n: nat)
    requires s != [] && Decode(s) == Some(n)
    ensures |Encode(n)| <= |s|
  {
    hide DigitOf, Symbol;
    DecodedDigits(s);
    var ds := seq(|s|, i requires 0 <= i < |s| => DigitOf(s[i]).value as nat);
    forall i | 0 <= i < |s| ensures s[i] == Symbol(DigitOf(s[i]).value) {
      DigitRoundTrip(s[i]);
    }
    assert Symbols(ds) == s;
    DecodeSymbols(ds);
    NumeralShortest(ds, BASE);
  }

  lemma {:induction false} DecodedDigits(s: JsString)
    requires Decode(s).Some?
    ensures forall i | 0 <= i < |s| :: DigitOf(s[i]).Some?
  {
    hide DigitOf;
    if s != [] { DecodedDigits(s[..|s| - 1]); }
  }

  lemma EncodeIsInjective(m: nat, n: nat)
    requires Encode(m) == Encode(n)
    ensures m == n
  {
    RoundTrip(m);
    RoundTrip(n);
  }

  lemma EncodeHasNoDot(n: nat)
    ensures DOT !in Encode(n)
  {
    hide Symbol;
    var ds := Numeral(n, BASE);
    forall i | 0 <= i < |ds| ensures Encode(n)[i] != DOT {
      SymbolRoundTrip(ds[i]);
    }
  }

  // ---------- the generator ----------

  /** The last plain stamp, none at first, and the counter for repeats of it. */
  datatype State = State(prev: Option<JsString>, seed: nat)

  function NextState(s: State, now: nat): State {
    if s.prev != Some(Encode(now)) then State(Some(Encode(now)), 0) else s.(seed := s.seed + 1)
  }

  function NextId(s: State, now: nat): JsString {
    if s.prev != Some(Encode(now)) then Encode(now) else Encode(now) + [DOT] + Encode(s.seed)
  }

  class Generator {
    var prev: Option<JsString>
    var seed: nat

    ghost function View(): State
      reads this
    {
      State(prev, seed)
    }

    constructor ()
      ensures View() == State(None, 0)
    {
      prev, seed := None, 0;
    }

    method Yeast(time: nat) returns (id: JsString)
      modifies this
      ensures id == NextId(old(View()), time)
      ensures View() == NextState(old(View()), time)
    {
      var now := EncodeLoop(time);
      if prev != Some(now) {
        seed, prev := 0, Some(now);
        return now;
      }
      var suffix := EncodeLoop(seed);
      seed := seed + 1;
      id := now + [DOT] + suffix;
    }
  }

  /** The state after calls at the clock readings `times`. */
  function StateAfter(times: seq<nat>): State {
    if times == [] then State(None, 0)
    else NextState(StateAfter(times[..|times| - 1]), times[|times| - 1])
  }

  /** The id that the `i`-th call returns. */
  function IdAt(times: seq<nat>, i: nat): JsString
    requires i < |times|
  {
    NextId(StateAfter(times[..i]), times[i])
  }

  /** The ids of a run of calls on one generator. */
  method YeastAll(times: seq<nat>) returns (ids: seq<JsString>)
    ensures |ids| == |times| && forall i | 0 <= i < |times| :: ids[i] == IdAt(times, i)
  {
    hide NextId, NextState;
    var generator := new Generator();
    ids := [];
    while |ids| < |times|
      invariant |ids| <= |times| && fresh(generator) && generator.View() == StateAfter(times[..|ids|])
      invariant forall i | 0 <= i < |ids| :: ids[i] == IdAt(times, i)
      decreases |times| - |ids|
    {
      var n := |ids|;
      assert times[..n + 1][..n] == times[..n];
      var id := generator.Yeast(times[n]);
      ids := ids + [id];
    }
  }

  /** How many of the readings just before the `i`-th equal it. */
  function RepeatsBefore(times: seq<nat>, i: nat): (n: nat)
    requires i < |times|
    ensures n <= i && forall j | i - n <= j < i :: times[j] == times[i]
    ensures n < i ==> times[i - n - 1] != times[i]
  {
    if i == 0 || times[i - 1] != times[i] then 0 else 1 + RepeatsBefore(times, i - 1)
  }

  /** The id of a reading that was repeated `n` times before. */
  function RepeatedStamp(time: nat, n: nat): JsString {
    if n == 0 then Encode(time) else Encode(time) + [DOT] + Encode(n - 1)
  }

  /** An id shows how often its stamp was repeated, and nothing else. */
  lemma {:induction false} StateAfterRun(times: seq<nat>, i: nat)
    requires i < |times|
    ensures StateAfter(times[..i + 1]) == State(Some(Encode(times[i])), RepeatsBefore(times, i))
    ensures IdAt(times, i) == RepeatedStamp(times[i], RepeatsBefore(times, i))
  {
    hide Encode;
    assert times[..i + 1][..i] == times[..i];
    if i > 0 {
      StateAfterRun(times, i - 1);
      if Encode(times[i - 1]) == Encode(times[i]) { EncodeIsInjective(times[i - 1], times[i]); }
    }
  }

  ghost predicate AllDistinct(times: seq<nat>) {
    forall i, j | 0 <= i < j < |times| :: IdAt(times, i) != IdAt(times, j)
  }

  /** No reading comes back after a different one. */
  ghost predicate NoReadingReturns(times: seq<nat>) {
    forall i, j, k | 0 <= i < j < k < |times| :: times[i] == times[k] ==> times[j] == times[i]
  }

  lemma DotSplits(a: JsString, b: JsString, x: JsString, y: JsString)
    requires DOT !in a && DOT !in b && a + [DOT] + x == b + [DOT] + y
    ensures a == b && x == y
  {
    var s := a + [DOT] + x;
    IndexOfFirst(a, DOT, x);
    IndexOfFirst(b, DOT, y);
    assert s[..|a|] == a && s[..|b|] == b;
    assert s[|a| + 1..] == x && s[|b| + 1..] == y;
  }

  lemma EqualStamps(t: nat, m: nat, u: nat, n: nat)
    requires RepeatedStamp(t, m) == RepeatedStamp(u, n)
    ensures t == u && m == n
  {
    hide Encode;
    EncodeHasNoDot(t);
    EncodeHasNoDot(u);
    assert DOT in RepeatedStamp(t, m) <==> m > 0;
    assert DOT in RepeatedStamp(u, n) <==> n > 0;
    if m == 0 {
      EncodeIsInjective(t, u);
    } else {
      DotSplits(Encode(t), Encode(u), Encode(m - 1), Encode(n - 1));
      EncodeIsInjective(t, u);
      EncodeIsInjective(m - 1, n - 1);
    }
  }

  /** Equal ids come from equal readings that were repeated equally often. */
  lemma EqualIds(times: seq<nat>, i: nat, j: nat)
    requires i < |times| && j < |times|
    ensures IdAt(times, i) == IdAt(times, j) <==>
            times[i] == times[j] && RepeatsBefore(times, i) == RepeatsBefore(times, j)
  {
    hide RepeatedStamp, IdAt, RepeatsBefore;
    StateAfterRun(times, i);
    StateAfterRun(times, j);
    if IdAt(times, i) == IdAt(times, j) {
      EqualStamps(times[i], RepeatsBefore(times, i), times[j], RepeatsBefore(times, j));
    }
  }

  /** The ids of a run are pairwise distinct exactly when no clock reading comes
      back after a different one. */
  lemma DistinctExactlyWhen(times: seq<nat>)
    ensures AllDistinct(times) <==> NoReadingReturns(times)
  {
    hide IdAt;
    if NoReadingReturns(times) {
      forall i, j | 0 <= i < j < |times| ensures IdAt(times, i) != IdAt(times, j) {
        EqualIds(times, i, j);
        if times[i] == times[j] {
          RepeatsInBlock(times, i, j);
        }
      }
    }
    if AllDistinct(times) {
      forall i, j, k | 0 <= i < j < k < |times| && times[i] == times[k] ensures times[j] == times[i] {
        if times[j] != times[i] { ReturningReadingClashes(times, i, j, k); }
      }
    }
  }

  lemma {:induction false} RepeatsInBlock(times: seq<nat>, i: nat, j: nat)
    requires i <= j < |times| && forall m | i <= m <= j :: times[m] == times[i]
    ensures RepeatsBefore(times, j) == RepeatsBefore(times, i) + (j - i)
    decreases j - i
  {
    if j > i { RepeatsInBlock(times, i, j - 1); }
  }

  /** The first of a block of equal readings has no repeats before it. */
  lemma BlockStart(times: seq<nat>, i: nat) returns (s: nat)
    requires i < |times|
    ensures s <= i && RepeatsBefore(times, s) == 0
    ensures forall m | s <= m <= i :: times[m] == times[i]
  {
    s := i - RepeatsBefore(times, i);
    if s < i { assert times[s] == times[i]; }
  }

  lemma ReturningReadingClashes(times: seq<nat>, i: nat, j: nat, k: nat)
    requires i < j < k < |times| && times[i] == times[k] && times[j] != times[i]
    ensures !AllDistinct(times)
  {
    hide IdAt;
    var a := BlockStart(times, i);
    var b := BlockStart(times, k);
    assert times[a] == times[i] && times[b] == times[k];
    EqualIds(times, a, b);
    assert IdAt(times, a) == IdAt(times, b);
  }

  /** Under a clock that never goes back, all ids of a run are distinct. */
  lemma DistinctUnderMonotoneClock(times: seq<nat>)
    requires forall i, j | 0 <= i < j < |times| :: times[i] <= times[j]
    ensures AllDistinct(times)
  {
    hide IdAt;
    DistinctExactlyWhen(times);
  }
}

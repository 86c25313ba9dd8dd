/** Values shared by the models of the JavaScript code: strings are sequences
    of UTF-16 code units, buffers are sequences of bytes. */
module Js {
  type Unit = x: int | 0 <= x < 0x1_0000
  type JsString = seq<Unit>
  type Byte = x: int | 0 <= x < 0x100

  datatype Option<+T> = None | Some(value: T)

  /** An operation that either returns or throws. */
  datatype Result<+T> = Ok(value: T) | Thrown

  /** A number value, as far as the parsers can tell numbers apart. */
  datatype JsNumber = NaN | Infinite | Finite(r: real)

  const ZERO: Unit := '0' as int
  const NINE: Unit := '9' as int
  const COLON: Unit := ':' as int
  const COMMA: Unit := ',' as int
  const DASH: Unit := '-' as int
  const DOT: Unit := '.' as int
  const SLASH: Unit := '/' as int
  const LBRACKET: Unit := '[' as int
  const EQUALS: Unit := '=' as int
  const LOWER_B: Unit := 'b' as int

  /** A string of characters as a string of code units. */
  function Ascii(s: string): JsString
    requires forall i | 0 <= i < |s| :: s[i] < 128 as char
  {
    seq(|s|, i requires 0 <= i < |s| => s[i] as int)
  }

  /** The first position of `c`, or the length if there is none. */
  function IndexOf(s: JsString, c: Unit): (n: nat)
    ensures n <= |s| && (n < |s| ==> s[n] == c)
    ensures forall i | 0 <= i < n :: s[i] != c
  {
    if s == [] || s[0] == c then 0 else 1 + IndexOf(s[1..], c)
  }

  lemma {:induction false} IndexOfFirst(before: JsString, c: Unit, rest: JsString)
    requires c !in before
    ensures IndexOf(before + [c] + rest, c) == |before|
  {
    if before != [] {
      assert (before + [c] + rest)[1..] == before[1..] + [c] + rest;
      IndexOfFirst(before[1..], c, rest);
    }
  }

  lemma ConcatAssociative<T>(a: seq<T>, b: seq<T>, c: seq<T>)
    ensures (a + b) + c == a + (b + c)
  {
  }
}

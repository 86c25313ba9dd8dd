/** The UTF-8 codec of the client (module 26). Its strings are UTF-16, and the
    encoded form is a string whose units are bytes. */
module Utf8 {
  import opened Js

  const REPLACEMENT := 0xFFFD

  predicate IsHigh(u: int) { 0xD800 <= u <= 0xDBFF }
  predicate IsLow(u: int) { 0xDC00 <= u <= 0xDFFF }
  predicate IsSurrogate(cp: int) { 0xD800 <= cp <= 0xDFFF }

  type CodePoint = x: int | 0 <= x < 0x11_0000

  predicate IsScalar(cp: CodePoint) { !IsSurrogate(cp) }

  ghost predicate AllScalar(cps: seq<CodePoint>) {
    forall i | 0 <= i < |cps| :: IsScalar(cps[i])
  }

  // ---------- UTF-16 ----------

  /** Is unit `i` a surrogate that is not half of a pair? */
  predicate LoneAt(s: JsString, i: nat)
    requires i < |s|
  {
    || (IsHigh(s[i]) && !(i + 1 < |s| && IsLow(s[i + 1])))
    || (IsLow(s[i]) && !(i > 0 && IsHigh(s[i - 1])))
  }

  ghost predicate WellFormed(s: JsString) {
    forall i | 0 <= i < |s| :: !LoneAt(s, i)
  }

  /** `s` with each lone surrogate, and nothing else, replaced by U+FFFD. */
  function Sanitize(s: JsString): (r: JsString)
    ensures |r| == |s|
  {
    seq(|s|, i requires 0 <= i < |s| => if LoneAt(s, i) then REPLACEMENT else s[i])
  }

  predicate StartsWithPair(s: JsString) {
    |s| > 1 && IsHigh(s[0]) && IsLow(s[1])
  }

  function Combine(high: Unit, low: Unit): CodePoint
    requires IsHigh(high) && IsLow(low)
  {
    (high % 1024) * 1024 + low % 1024 + 0x1_0000
  }

  function Ucs2Decode(s: JsString): seq<CodePoint> {
    if s == [] then []
    else if StartsWithPair(s) then [Combine(s[0], s[1])] + Ucs2Decode(s[2..])
    else [s[0] as CodePoint] + Ucs2Decode(s[1..])
  }

  function UnitsOf(cp: CodePoint): JsString {
    if cp > 0xFFFF then
      var e := cp - 0x1_0000;
      [e / 1024 % 1024 + 0xD800, 0xDC00 + e % 1024]
    else [cp]
  }

  function Ucs2Encode(cps: seq<CodePoint>): JsString {
    if cps == [] then [] else UnitsOf(cps[0]) + Ucs2Encode(cps[1..])
  }

  /** A code point past U+FFFF is a pair of surrogates, every other one a unit. */
  lemma UnitsLayout(cp: CodePoint)
    ensures var u := UnitsOf(cp);
            if cp <= 0xFFFF then u == [cp]
            else |u| == 2 && 0xD800 <= u[0] <= 0xDBFF && 0xDC00 <= u[1] <= 0xDFFF
                 && cp == 0x1_0000 + (u[0] as int - 0xD800) * 0x400 + (u[1] as int - 0xDC00)
  {
  }

  lemma Ucs2DecodeFrom(s: JsString, i: nat)
    requires i < |s|
    ensures Ucs2Decode(s[i..]) ==
            if i + 1 < |s| && IsHigh(s[i]) && IsLow(s[i + 1]) then [Combine(s[i], s[i + 1])] + Ucs2Decode(s[i + 2..])
            else [s[i] as CodePoint] + Ucs2Decode(s[i + 1..])
  {
    hide Combine;
    assert s[i..][1..] == s[i + 1..];
    if i + 1 < |s| { assert s[i..][2..] == s[i + 2..]; }
  }

  method Ucs2DecodeLoop(s: JsString) returns (output: seq<CodePoint>)
    ensures output == Ucs2Decode(s)
  {
    hide Combine;
    output := [];
    var counter := 0;
    assert s[0..] == s;
    while counter < |s|
      invariant counter <= |s|
      invariant output + Ucs2Decode(s[counter..]) == Ucs2Decode(s)
    {
      Ucs2DecodeFrom(s, counter);
      ghost var before := output;
      var value := s[counter];
      counter := counter + 1;
      if IsHigh(value) && counter < |s| {
        var extra := s[counter];
        counter := counter + 1;
        if IsLow(extra) {
          output := output + [Combine(value, extra)];
        } else {
          output := output + [value as CodePoint];
          counter := counter - 1;
        }
      } else {
        output := output + [value as CodePoint];
      }
      ConcatAssociative(before, [output[|before|]], Ucs2Decode(s[counter..]));
    }
  }

  method Ucs2EncodeLoop(cps: seq<CodePoint>) returns (output: JsString)
    ensures output == Ucs2Encode(cps)
  {
    output := [];
    var index := 0;
    assert cps[0..] == cps;
    while index < |cps|
      invariant index <= |cps|
      invariant output + Ucs2Encode(cps[index..]) == Ucs2Encode(cps)
    {
      ghost var before := output;
      var value: int := cps[index];
      if value > 0xFFFF {
        value := value - 0x1_0000;
        output := output + [value / 1024 % 1024 + 0xD800];
        value := 0xDC00 + value % 1024;
      }
      output := output + [value];
      assert output == before + UnitsOf(cps[index]);
      assert cps[index..][1..] == cps[index + 1..];
      ConcatAssociative(before, UnitsOf(cps[index]), Ucs2Encode(cps[index + 1..]));
      index := index + 1;
    }
  }

  lemma {:induction false} Ucs2EncodeOfDecode(s: JsString)
    ensures Ucs2Encode(Ucs2Decode(s)) == s
  {
    if StartsWithPair(s) {
      Ucs2EncodeOfDecode(s[2..]);
      assert Ucs2Decode(s)[1..] == Ucs2Decode(s[2..]);
      assert UnitsOf(Combine(s[0], s[1])) == s[..2];
    } else if s != [] {
      Ucs2EncodeOfDecode(s[1..]);
      assert Ucs2Decode(s)[1..] == Ucs2Decode(s[1..]);
      assert UnitsOf(s[0]) == s[..1];
    }
  }

  lemma UnitsOfScalar(cp: CodePoint)
    requires IsScalar(cp)
    ensures var u := UnitsOf(cp);
            if |u| == 2 then IsHigh(u[0]) && IsLow(u[1]) && Combine(u[0], u[1]) == cp
            else u == [cp] && !IsSurrogate(u[0])
  {
  }

  lemma PrependUnits(cp: CodePoint, tail: JsString)
    requires IsScalar(cp)
    ensures Ucs2Decode(UnitsOf(cp) + tail) == [cp] + Ucs2Decode(tail)
  {
    hide UnitsOf, Combine;
    UnitsOfScalar(cp);
    var s := UnitsOf(cp) + tail;
    assert s[|UnitsOf(cp)|..] == tail;
  }

  lemma PrependUnitsWellFormed(cp: CodePoint, tail: JsString)
    requires IsScalar(cp) && WellFormed(tail)
    ensures WellFormed(UnitsOf(cp) + tail)
  {
    hide UnitsOf, Combine;
    UnitsOfScalar(cp);
    var n, s := |UnitsOf(cp)|, UnitsOf(cp) + tail;
    forall i | 0 <= i < |s| ensures !LoneAt(s, i) {
      if i >= n { assert !LoneAt(tail, i - n); }
    }
  }

  lemma {:induction false} Ucs2DecodeOfEncode(cps: seq<CodePoint>)
    requires AllScalar(cps)
    ensures Ucs2Decode(Ucs2Encode(cps)) == cps
    ensures WellFormed(Ucs2Encode(cps))
  {
    if cps != [] {
      Ucs2DecodeOfEncode(cps[1..]);
      PrependUnits(cps[0], Ucs2Encode(cps[1..]));
      PrependUnitsWellFormed(cps[0], Ucs2Encode(cps[1..]));
    }
  }

  /** Sanitizing a string replaces each surrogate code point it decodes to. */
  function Scrub(cps: seq<CodePoint>): (r: seq<CodePoint>)
    ensures |r| == |cps|
    ensures AllScalar(r)
  {
    seq(|cps|, i requires 0 <= i < |cps| => if IsSurrogate(cps[i]) then REPLACEMENT else cps[i])
  }

  lemma {:induction false} DecodeOfSanitized(s: JsString)
    ensures Ucs2Decode(Sanitize(s)) == Scrub(Ucs2Decode(s))
  {
    if s != [] {
      var n := if StartsWithPair(s) then 2 else 1;
      DecodeOfSanitized(s[n..]);
      forall i | 0 <= i < |s[n..]| ensures LoneAt(s[n..], i) == LoneAt(s, n + i) {
      }
      assert Sanitize(s)[n..] == Sanitize(s[n..]);
    }
  }

  lemma {:induction false} WellFormedDecodesToScalars(s: JsString)
    ensures WellFormed(s) <==> AllScalar(Ucs2Decode(s))
  {
    DecodeOfSanitized(s);
    Ucs2EncodeOfDecode(s);
    Ucs2EncodeOfDecode(Sanitize(s));
    var cps := Ucs2Decode(s);
    if WellFormed(s) {
      assert Sanitize(s) == s;
    }
    if AllScalar(cps) {
      Ucs2DecodeOfEncode(cps);
    }
  }

  // ---------- UTF-8 ----------

  /** A continuation byte carries the low six bits of `x`. */
  function Continuation(x: nat): Byte { x % 64 + 0x80 }

  function EncodeScalar(cp: CodePoint): (r: seq<Byte>)
    ensures |r| >= 1
  {
    if cp < 0x80 then [cp]
    else if cp < 0x800 then [cp / 64 % 32 + 0xC0, Continuation(cp)]
    else if cp < 0x1_0000 then [cp / 4096 % 16 + 0xE0, Continuation(cp / 64), Continuation(cp)]
    else [cp / 0x4_0000 % 8 + 0xF0, Continuation(cp / 4096), Continuation(cp / 64), Continuation(cp)]
  }

  function EncodeCodePoint(cp: CodePoint, strict: bool): Result<seq<Byte>> {
    if IsSurrogate(cp) then
      if strict then Thrown else Ok(EncodeScalar(REPLACEMENT))
    else Ok(EncodeScalar(cp))
  }

  function EncodeAll(cps: seq<CodePoint>, strict: bool): Result<seq<Byte>> {
    if cps == [] then Ok([]) else
      match EncodeCodePoint(cps[0], strict)
      case Thrown => Thrown
      case Ok(bytes) =>
        match EncodeAll(cps[1..], strict)
        case Thrown => Thrown
        case Ok(rest) => Ok(bytes + rest)
  }

  function Encode(s: JsString, strict: bool): Result<seq<Byte>> {
    EncodeAll(Ucs2Decode(s), strict)
  }

  predicate ContinuesFor(bytes: seq<Byte>, n: nat) {
    n < |bytes| && forall i | 1 <= i <= n :: bytes[i] / 64 == 2
  }

  function Join2(b: int, c: int): int { b % 32 * 64 + c % 64 }

  function Join3(b: int, c: int, d: int): int { b % 16 * 4096 + c % 64 * 64 + d % 64 }

  function Join4(b: int, c: int, d: int, e: int): int { b % 8 * 0x4_0000 + c % 64 * 4096 + d % 64 * 64 + e % 64 }

  /** Decodes the code point at the front and says how many bytes it took. */
  function DecodeSymbol(bytes: seq<Byte>, strict: bool): (r: Result<(CodePoint, nat)>)
    requires bytes != []
    ensures r.Ok? ==> 0 < r.value.1 <= |bytes|
  {
    var b: int := bytes[0];
    if b < 0x80 then Ok((b, 1))
    else if b / 32 == 6 && ContinuesFor(bytes, 1) then
      var cp := Join2(b, bytes[1]);
      if cp >= 0x80 then Ok((cp, 2)) else Thrown
    else if b / 16 == 14 && ContinuesFor(bytes, 2) then
      var cp := Join3(b, bytes[1], bytes[2]);
      if cp < 0x800 then Thrown
      else if !IsSurrogate(cp) then Ok((cp, 3))
      else if strict then Thrown
      else Ok((REPLACEMENT, 3))
    else if b / 8 == 30 && ContinuesFor(bytes, 3) then
      var cp := Join4(b, bytes[1], bytes[2], bytes[3]);
      if 0x1_0000 <= cp <= 0x10_FFFF then Ok((cp, 4)) else Thrown
    else Thrown
  }

  /** Strict and lenient decoding differ only on an encoded surrogate: it is an error
      or read as U+FFFD. */
  lemma LenientReplacesSurrogate(bytes: seq<Byte>)
    requires bytes != []
    ensures if |bytes| >= 3 && bytes[0] == 0xED && 0xA0 <= bytes[1] <= 0xBF && 0x80 <= bytes[2] <= 0xBF
            then DecodeSymbol(bytes, true) == Thrown && DecodeSymbol(bytes, false) == Ok((0xFFFD, 3))
            else DecodeSymbol(bytes, true) == DecodeSymbol(bytes, false)
  {
  }

  function DecodeAll(bytes: seq<Byte>, strict: bool): Result<seq<CodePoint>> {
    if bytes == [] then Ok([]) else
      match DecodeSymbol(bytes, strict)
      case Thrown => Thrown
      case Ok((cp, n)) =>
        match DecodeAll(bytes[n..], strict)
        case Thrown => Thrown
        case Ok(rest) => Ok([cp] + rest)
  }

  /** The low bytes of the code points of `s`: what the decoder reads. */
  function LowBytes(cps: seq<CodePoint>): (r: seq<Byte>)
    ensures |r| == |cps|
  {
    seq(|cps|, i requires 0 <= i < |cps| => cps[i] % 256)
  }

  function Decode(s: JsString, strict: bool): Result<JsString> {
    match DecodeAll(LowBytes(Ucs2Decode(s)), strict)
    case Thrown => Thrown
    case Ok(cps) => Ok(Ucs2Encode(cps))
  }

  /** A pair of surrogates is read as one byte, the last of its code point. */
  lemma PairIsOneByte(high: Unit, low: Unit, strict: bool)
    requires IsHigh(high) && IsLow(low)
    ensures Decode([high, low], strict) == Decode([low % 256], strict)
  {
    hide DecodeAll, Ucs2Encode;
    var cps := Ucs2Decode([high, low]);
    assert [high, low][2..] == [] && [low % 256][1..] == [];
    assert StartsWithPair([high, low]) && Ucs2Decode([]) == [];
    assert cps == [Combine(high, low)];
    assert Combine(high, low) % 256 == low % 256;
    assert Ucs2Decode([low % 256]) == [low % 256];
    assert LowBytes(cps) == LowBytes([low % 256]);
  }

  method EncodeLoop(s: JsString, strict: bool) returns (r: Result<seq<Byte>>)
    ensures r == Encode(s, strict)
  {
    hide EncodeCodePoint, Ucs2Decode;
    var cps := Ucs2DecodeLoop(s);
    var output := [];
    var index := 0;
    while index < |cps|
      invariant index <= |cps|
      invariant EncodeAll(cps[index..], strict).Ok? <==> EncodeAll(cps, strict).Ok?
      invariant EncodeAll(cps, strict).Ok? ==>
                  EncodeAll(cps, strict).value == output + EncodeAll(cps[index..], strict).value
    {
      ghost var rest := cps[index..];
      assert rest[1..] == cps[index + 1..];
      match EncodeCodePoint(cps[index], strict) {
        case Thrown => return Thrown;
        case Ok(bytes) => output := output + bytes;
      }
      index := index + 1;
    }
    assert output + [] == output;
    return Ok(output);
  }

  method DecodeLoop(s: JsString, strict: bool) returns (r: Result<JsString>)
    ensures r == Decode(s, strict)
  {
    hide DecodeSymbol, ContinuesFor, Ucs2Decode, Ucs2Encode;
    var cps := Ucs2DecodeLoop(s);
    var bytes := LowBytes(cps);
    var output := [];
    var index := 0;
    while index < |bytes|
      invariant index <= |bytes|
      invariant DecodeAll(bytes[index..], strict).Ok? <==> DecodeAll(bytes, strict).Ok?
      invariant DecodeAll(bytes, strict).Ok? ==>
                  DecodeAll(bytes, strict).value == output + DecodeAll(bytes[index..], strict).value
    {
      ghost var rest := bytes[index..];
      match DecodeSymbol(bytes[index..], strict) {
        case Thrown => return Thrown;
        case Ok((cp, n)) =>
          output := output + [cp];
          index := index + n;
          assert rest[n..] == bytes[index..];
      }
    }
    assert output + [] == output;
    var text := Ucs2EncodeLoop(output);
    return Ok(text);
  }

  // ---------- the codec is a bijection ----------

  lemma SixBitGroups(cp: int)
    requires 0 <= cp < 0x20_0000
    ensures cp == cp / 64 * 64 + cp % 64
    ensures cp / 64 == cp / 4096 * 64 + cp / 64 % 64
    ensures cp / 4096 == cp / 0x4_0000 * 64 + cp / 4096 % 64
    ensures 0 <= cp / 0x4_0000 < 8
  {
  }

  lemma LeadBytes(cp: int)
    requires 0 <= cp < 0x11_0000
    ensures cp < 0x800 ==> cp / 64 % 32 == cp / 64
    ensures cp < 0x1_0000 ==> cp / 4096 % 16 == cp / 4096
    ensures cp / 0x4_0000 % 8 == cp / 0x4_0000 <= 4
  {
  }

  /** The table of section 3 of RFC 3629: how many bytes, their ranges, and where
      the bits of the scalar value are. */
  lemma EncodedLayout(cp: CodePoint)
    requires IsScalar(cp)
    ensures var b := EncodeScalar(cp);
            && (forall i | 1 <= i < |b| :: 0x80 <= b[i] <= 0xBF)
            && (if cp <= 0x7F then |b| == 1 && b[0] == cp
                else if cp <= 0x7FF then
                  |b| == 2 && 0xC2 <= b[0] <= 0xDF && cp == (b[0] as int - 0xC0) * 0x40 + (b[1] as int - 0x80)
                else if cp <= 0xFFFF then
                  |b| == 3 && 0xE0 <= b[0] <= 0xEF
                  && cp == (b[0] as int - 0xE0) * 0x1000 + (b[1] as int - 0x80) * 0x40 + (b[2] as int - 0x80)
                else
                  |b| == 4 && 0xF0 <= b[0] <= 0xF4
                  && cp == (b[0] as int - 0xF0) * 0x4_0000 + (b[1] as int - 0x80) * 0x1000
                           + (b[2] as int - 0x80) * 0x40 + (b[3] as int - 0x80))
  {
    SixBitGroups(cp);
    LeadBytes(cp);
    var b, x, y, z := EncodeScalar(cp), cp % 64, cp / 64 % 64, cp / 4096 % 64;
    if cp > 0xFFFF {
      assert b == [cp / 0x4_0000 + 0xF0, z + 0x80, y + 0x80, x + 0x80];
    } else if cp > 0x7FF {
      assert b == [cp / 4096 + 0xE0, y + 0x80, x + 0x80];
    } else if cp > 0x7F {
      assert b == [cp / 64 + 0xC0, x + 0x80];
    }
  }

  lemma JoinSixBitGroups(cp: int)
    requires 0 <= cp < 0x20_0000
    ensures cp < 0x800 ==> Join2(cp / 64 % 32 + 0xC0, cp % 64 + 0x80) == cp
    ensures cp < 0x1_0000 ==> Join3(cp / 4096 % 16 + 0xE0, cp / 64 % 64 + 0x80, cp % 64 + 0x80) == cp
    ensures Join4(cp / 0x4_0000 % 8 + 0xF0, cp / 4096 % 64 + 0x80, cp / 64 % 64 + 0x80, cp % 64 + 0x80) == cp
  {
    SixBitGroups(cp);
    var a, b, c, d := cp / 0x4_0000, cp / 4096 % 64, cp / 64 % 64, cp % 64;
    assert cp == a * 0x4_0000 + b * 4096 + c * 64 + d;
    LowBits(b, 64, 0x80);
    LowBits(c, 64, 0x80);
    LowBits(d, 64, 0x80);
    LowBits(a, 8, 0xF0);
    if cp < 0x1_0000 { LowBits(cp / 4096, 16, 0xE0); }
    if cp < 0x800 { LowBits(cp / 64, 32, 0xC0); }
  }

  lemma LowBits(x: int, n: int, mark: int)
    requires || (n == 8 && mark == 0xF0) || (n == 16 && mark == 0xE0)
             || (n == 32 && mark == 0xC0) || (n == 64 && mark == 0x80)
    requires 0 <= x < n
    ensures x % n == x && (x + mark) % n == x
  {
  }

  lemma DecodeSymbolOfEncoded(cp: CodePoint, rest: seq<Byte>, strict: bool)
    requires IsScalar(cp)
    ensures DecodeSymbol(EncodeScalar(cp) + rest, strict) == Ok((cp, |EncodeScalar(cp)|))
  {
    hide Join2, Join3, Join4;
    JoinSixBitGroups(cp);
    var e := EncodeScalar(cp);
    assert (e + rest)[0] == e[0];
    assert ContinuesFor(e + rest, |e| - 1);
  }

  lemma EncodeOfJoin2(b: Byte, c: Byte)
    requires b / 32 == 6 && c / 64 == 2 && Join2(b, c) >= 0x80
    ensures Join2(b, c) < 0x800 && EncodeScalar(Join2(b, c)) == [b, c]
  {
  }

  lemma EncodeOfJoin3(b: Byte, c: Byte, d: Byte)
    requires b / 16 == 14 && c / 64 == 2 && d / 64 == 2 && Join3(b, c, d) >= 0x800
    ensures EncodeScalar(Join3(b, c, d)) == [b, c, d]
  {
    var cp := Join3(b, c, d);
    assert cp < 0x1_0000 && cp / 64 == b % 16 * 64 + c % 64;
  }

  lemma SixBitGroupsOfJoin4(b: int, c: int, d: int, e: int)
    requires b / 8 == 30 && c / 64 == 2 && d / 64 == 2 && e / 64 == 2
    ensures var cp := Join4(b, c, d, e);
            && cp / 0x4_0000 % 8 + 0xF0 == b && cp / 4096 % 64 + 0x80 == c
            && cp / 64 % 64 + 0x80 == d && cp % 64 + 0x80 == e
  {
    var cp := Join4(b, c, d, e);
    assert cp / 4096 == b % 8 * 64 + c % 64;
    assert cp / 64 == b % 8 * 4096 + c % 64 * 64 + d % 64;
  }

  lemma EncodeOfJoin4(b: Byte, c: Byte, d: Byte, e: Byte)
    requires b / 8 == 30 && c / 64 == 2 && d / 64 == 2 && e / 64 == 2
    requires 0x1_0000 <= Join4(b, c, d, e) < 0x11_0000
    ensures EncodeScalar(Join4(b, c, d, e)) == [b, c, d, e]
  {
    hide Join4;
    SixBitGroupsOfJoin4(b, c, d, e);
  }

  /** Strict decoding accepts only the encoding of the code point it returns. */
  lemma DecodeSymbolCanonical(bytes: seq<Byte>)
    requires bytes != [] && DecodeSymbol(bytes, true).Ok?
    ensures var (cp, n) := DecodeSymbol(bytes, true).value;
            IsScalar(cp) && EncodeScalar(cp) == bytes[..n]
  {
    hide Join2, Join3, Join4;
    var b := bytes[0];
    if b < 0x80 {
    } else if b / 32 == 6 {
      EncodeOfJoin2(b, bytes[1]);
    } else if b / 16 == 14 {
      EncodeOfJoin3(b, bytes[1], bytes[2]);
    } else {
      EncodeOfJoin4(b, bytes[1], bytes[2], bytes[3]);
    }
  }

  lemma {:induction false} DecodeAllOfEncoded(cps: seq<CodePoint>, encodeStrict: bool, decodeStrict: bool)
    requires EncodeAll(cps, encodeStrict).Ok?
    ensures DecodeAll(EncodeAll(cps, encodeStrict).value, decodeStrict) == Ok(Scrub(cps))
  {
    hide DecodeSymbol, EncodeScalar;
    if cps != [] {
      DecodeAllOfEncoded(cps[1..], encodeStrict, decodeStrict);
      var head := EncodeCodePoint(cps[0], encodeStrict).value;
      var tail := EncodeAll(cps[1..], encodeStrict).value;
      assert (head + tail)[|head|..] == tail;
      DecodeSymbolOfEncoded(Scrub(cps)[0], tail, decodeStrict);
      assert Scrub(cps) == [Scrub(cps)[0]] + Scrub(cps[1..]);
    }
  }

  lemma {:induction false} EncodeAllOfDecoded(bytes: seq<Byte>, encodeStrict: bool)
    requires DecodeAll(bytes, true).Ok?
    ensures EncodeAll(DecodeAll(bytes, true).value, encodeStrict) == Ok(bytes)
    ensures AllScalar(DecodeAll(bytes, true).value)
  {
    hide DecodeSymbol, EncodeScalar;
    if bytes != [] {
      DecodeSymbolCanonical(bytes);
      var (cp, n) := DecodeSymbol(bytes, true).value;
      EncodeAllOfDecoded(bytes[n..], encodeStrict);
      var rest := DecodeAll(bytes[n..], true).value;
      assert ([cp] + rest)[1..] == rest;
      assert bytes == bytes[..n] + bytes[n..];
    }
  }

  lemma {:induction false} BytesDecodeToThemselves(bytes: seq<Byte>)
    ensures Ucs2Decode(bytes) == bytes && LowBytes(bytes) == bytes
  {
    if bytes != [] {
      BytesDecodeToThemselves(bytes[1..]);
    }
  }

  lemma {:induction false} EncodeAllThrows(cps: seq<CodePoint>, strict: bool)
    ensures EncodeAll(cps, strict).Thrown? <==> strict && !AllScalar(cps)
  {
    if cps != [] {
      EncodeAllThrows(cps[1..], strict);
      assert forall i | 0 <= i < |cps[1..]| :: cps[1..][i] == cps[i + 1];
    }
  }

  /** Encoding throws exactly when it is strict and a lone surrogate occurs. */
  lemma EncodeThrows(s: JsString, strict: bool)
    ensures Encode(s, strict).Thrown? <==> strict && !WellFormed(s)
  {
    EncodeAllThrows(Ucs2Decode(s), strict);
    WellFormedDecodesToScalars(s);
  }

  /** Whatever was encoded decodes, strictly or not, to the same string with
      every lone surrogate, and nothing else, replaced. */
  lemma DecodeOfEncode(s: JsString, encodeStrict: bool, decodeStrict: bool)
    requires Encode(s, encodeStrict).Ok?
    ensures Decode(Encode(s, encodeStrict).value, decodeStrict) == Ok(Sanitize(s))
  {
    var bytes := Encode(s, encodeStrict).value;
    BytesDecodeToThemselves(bytes);
    DecodeAllOfEncoded(Ucs2Decode(s), encodeStrict, decodeStrict);
    DecodeOfSanitized(s);
    Ucs2EncodeOfDecode(Sanitize(s));
  }

  /** A lone surrogate becomes U+FFFD. */
  lemma LoneSurrogateIsReplaced(s: JsString, i: nat)
    requires i < |s|
    ensures Sanitize(s)[i] == if LoneAt(s, i) then 0xFFFD else s[i]
  {
  }

  lemma SanitizeIsIdentity(s: JsString)
    ensures Sanitize(s) == s <==> WellFormed(s)
  {
  }

  /** The round trip on well-formed text. */
  lemma RoundTrip(s: JsString, strict: bool)
    requires WellFormed(s)
    ensures Encode(s, strict).Ok? && Decode(Encode(s, strict).value, strict) == Ok(s)
  {
    EncodeThrows(s, strict);
    DecodeOfEncode(s, strict, strict);
    SanitizeIsIdentity(s);
  }

  /** Strict decoding accepts a byte string exactly when it is the encoding of
      a well-formed text, and then returns that text. */
  lemma StrictDecodeIsInverse(bytes: seq<Byte>, s: JsString)
    ensures Decode(bytes, true) == Ok(s) <==> WellFormed(s) && Encode(s, true) == Ok(bytes)
  {
    BytesDecodeToThemselves(bytes);
    if Decode(bytes, true) == Ok(s) {
      var cps := DecodeAll(bytes, true).value;
      EncodeAllOfDecoded(bytes, true);
      Ucs2DecodeOfEncode(cps);
    }
    if WellFormed(s) {
      RoundTrip(s, true);
    }
  }
}

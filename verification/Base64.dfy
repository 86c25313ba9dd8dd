/** The base64 codec of the client (module 28), section 4 of RFC 4648. */
module Base64 {
  import opened Js

  const PAD := EQUALS

  type Sextet = x: int | 0 <= x < 64

  /** The character of a six-bit value. */
  function Symbol(v: Sextet): Unit {
    if v < 26 then 'A' as int + v
    else if v < 52 then 'a' as int + (v - 26)
    else if v < 62 then ZERO + (v - 52)
    else if v == 62 then '+' as int
    else SLASH
  }

  /** Table 1 of RFC 4648: letters, small letters, digits, plus and slash, each
      group in the order of the character codes. */
  lemma AlphabetIsStandard()
    ensures Symbol(0) == 'A' as int && Symbol(25) == 'Z' as int
    ensures Symbol(26) == 'a' as int && Symbol(51) == 'z' as int
    ensures Symbol(52) == '0' as int && Symbol(61) == '9' as int
    ensures Symbol(62) == '+' as int && Symbol(63) == '/' as int
    ensures forall v: Sextet | v < 63 && v !in {25, 51, 61, 62} :: Symbol(v + 1) == Symbol(v) + 1
  {
  }

  /** The lookup table: every code it does not list, `=` included, reads 0. */
  function Lookup(c: Unit): Sextet {
    if 'A' as int <= c <= 'Z' as int then c - 'A' as int
    else if 'a' as int <= c <= 'z' as int then c - 'a' as int + 26
    else if ZERO <= c <= NINE then c - ZERO + 52
    else if c == '+' as int then 62
    else if c == SLASH then 63
    else 0
  }

  /** A read past the end gives `undefined`, which the bit operators take as 0. */
  function ByteAt(bytes: seq<Byte>, i: nat): Byte {
    if i < |bytes| then bytes[i] else 0
  }

  function ValueAt(s: JsString, i: nat): Sextet {
    if i < |s| then Lookup(s[i]) else 0
  }

  // Three bytes `a, b, c` as four sextets, and back.
  function Sextet0(a: Byte): Sextet { a / 4 }
  function Sextet1(a: Byte, b: Byte): Sextet { a % 4 * 16 + b / 16 }
  function Sextet2(b: Byte, c: Byte): Sextet { b % 16 * 4 + c / 64 }
  function Sextet3(c: Byte): Sextet { c % 64 }

  function Byte0(w: Sextet, x: Sextet): Byte { w * 4 + x / 16 }
  function Byte1(x: Sextet, y: Sextet): Byte { x % 16 * 16 + y / 4 }
  function Byte2(y: Sextet, z: Sextet): Byte { y % 4 * 64 + z }

  /** The three bytes from `i` as four sextets. */
  function Sextets(bytes: seq<Byte>, i: nat): (r: seq<Sextet>)
    ensures |r| == 4
  {
    var a, b, c := ByteAt(bytes, i), ByteAt(bytes, i + 1), ByteAt(bytes, i + 2);
    [Sextet0(a), Sextet1(a, b), Sextet2(b, c), Sextet3(c)]
  }

  function EncodeGroup(bytes: seq<Byte>, i: nat): (r: JsString)
    ensures |r| == 4
  {
    var v := Sextets(bytes, i);
    [Symbol(v[0]), Symbol(v[1]), Symbol(v[2]), Symbol(v[3])]
  }

  /** Three bytes for the four characters from `i`. */
  function DecodeGroup(s: JsString, i: nat): (r: seq<Byte>)
    ensures |r| == 3
  {
    var w, x, y, z := ValueAt(s, i), ValueAt(s, i + 1), ValueAt(s, i + 2), ValueAt(s, i + 3);
    [Byte0(w, x), Byte1(x, y), Byte2(y, z)]
  }

  /** The groups from the `q`-th on; group `q` starts at byte `3 * q`. */
  function EncodeGroups(bytes: seq<Byte>, q: nat): (r: JsString)
    decreases |bytes| - 3 * q
  {
    if 3 * q >= |bytes| then [] else EncodeGroup(bytes, 3 * q) + EncodeGroups(bytes, q + 1)
  }

  function DecodeGroups(s: JsString, q: nat): (r: seq<Byte>)
    decreases |s| - 4 * q
  {
    if 4 * q >= |s| then [] else DecodeGroup(s, 4 * q) + DecodeGroups(s, q + 1)
  }

  /** How many characters of the last group are padding. */
  function Pads(n: nat): nat {
    if n % 3 == 2 then 1 else if n % 3 == 1 then 2 else 0
  }

  function Padded(s: JsString, pads: nat): (r: JsString)
    requires pads <= |s|
    ensures |r| == |s|
    ensures forall i | 0 <= i < |s| :: r[i] == if i < |s| - pads then s[i] else PAD
  {
    s[..|s| - pads] + seq(pads, _ => PAD)
  }

  function Encode(bytes: seq<Byte>): JsString {
    EncodeGroupsLength(bytes, 0);
    Padded(EncodeGroups(bytes, 0), Pads(|bytes|))
  }

  function PadCount(s: JsString): nat {
    if |s| > 0 && s[|s| - 1] == PAD then
      if |s| > 1 && s[|s| - 2] == PAD then 2 else 1
    else 0
  }

  /** The length of the output buffer: `.75 * length` less the padding,
      truncated to an integer as the buffer constructor does. */
  function BufferLength(length: nat, pads: nat): nat {
    if 3 * length < 4 * pads then 0 else (3 * length - 4 * pads) / 4
  }

  function Decode(s: JsString): (r: seq<Byte>)
    ensures |r| == BufferLength(|s|, PadCount(s))
  {
    DecodeGroupsLength(s, 0);
    DecodeGroups(s, 0)[..BufferLength(|s|, PadCount(s))]
  }

  // How many groups cover `n` bytes, or `n` characters.
  function ByteGroups(n: nat): nat { (n + 2) / 3 }
  function CharGroups(n: nat): nat { (n + 3) / 4 }

  lemma {:induction false} EncodeGroupsLength(bytes: seq<Byte>, q: nat)
    requires q <= ByteGroups(|bytes|)
    ensures |EncodeGroups(bytes, q)| == 4 * (ByteGroups(|bytes|) - q)
    decreases |bytes| - 3 * q
  {
    hide EncodeGroup;
    var g := ByteGroups(|bytes|);
    assert 3 * g - 2 <= |bytes| <= 3 * g;
    if 3 * q < |bytes| { EncodeGroupsLength(bytes, q + 1); }
  }

  lemma {:induction false} DecodeGroupsLength(s: JsString, q: nat)
    requires q <= CharGroups(|s|)
    ensures |DecodeGroups(s, q)| == 3 * (CharGroups(|s|) - q)
    decreases |s| - 4 * q
  {
    hide DecodeGroup;
    var g := CharGroups(|s|);
    assert 4 * g - 3 <= |s| <= 4 * g;
    if 4 * q < |s| { DecodeGroupsLength(s, q + 1); }
  }

  lemma {:induction false} EncodeGroupsAt(bytes: seq<Byte>, p: nat, q: nat, m: nat)
    requires p <= q && 3 * q < |bytes| && m < 4
    ensures 4 * (q - p) + m < |EncodeGroups(bytes, p)|
    ensures EncodeGroups(bytes, p)[4 * (q - p) + m] == EncodeGroup(bytes, 3 * q)[m]
    decreases q - p
  {
    hide EncodeGroup;
    if p < q { EncodeGroupsAt(bytes, p + 1, q, m); }
  }

  lemma {:induction false} DecodeGroupsAt(s: JsString, p: nat, q: nat, m: nat)
    requires p <= q && 4 * q < |s| && m < 3
    ensures 3 * (q - p) + m < |DecodeGroups(s, p)|
    ensures DecodeGroups(s, p)[3 * (q - p) + m] == DecodeGroup(s, 4 * q)[m]
    decreases q - p
  {
    hide DecodeGroup;
    if p < q { DecodeGroupsAt(s, p + 1, q, m); }
  }

  method EncodeLoop(bytes: seq<Byte>) returns (r: JsString)
    ensures r == Encode(bytes)
  {
    hide Symbol, Sextet0, Sextet1, Sextet2, Sextet3;
    r := [];
    var n := 0;
    ghost var q := 0;
    while n < |bytes|
      invariant n == 3 * q && r + EncodeGroups(bytes, q) == EncodeGroups(bytes, 0)
    {
      ghost var before, group := r, EncodeGroup(bytes, n);
      r := r + [Symbol(Sextet0(bytes[n]))];
      r := r + [Symbol(Sextet1(bytes[n], ByteAt(bytes, n + 1)))];
      r := r + [Symbol(Sextet2(ByteAt(bytes, n + 1), ByteAt(bytes, n + 2)))];
      r := r + [Symbol(Sextet3(ByteAt(bytes, n + 2)))];
      assert r == before + group;
      ConcatAssociative(before, group, EncodeGroups(bytes, q + 1));
      n := n + 3;
      q := q + 1;
    }
    EncodeGroupsLength(bytes, 0);
    if |bytes| % 3 == 2 {
      r := r[..|r| - 1] + [PAD];
    } else if |bytes| % 3 == 1 {
      r := r[..|r| - 2] + [PAD, PAD];
    }
  }

  /** A typed-array write: dropped when the index is out of range. */
  method Store(buffer: array<Byte>, p: nat, x: Byte)
    modifies buffer
    ensures buffer[..] == if p < buffer.Length then old(buffer[..])[p := x] else old(buffer[..])
  {
    if p < buffer.Length {
      buffer[p] := x;
    }
  }

  /** The buffer holds the first `p` bytes of `full`, as far as they fit. */
  ghost predicate FilledUpTo(buffer: seq<Byte>, full: seq<Byte>, p: nat) {
    forall i | 0 <= i < p && i < |buffer| && i < |full| :: buffer[i] == full[i]
  }

  method StoreGroup(buffer: array<Byte>, p: nat, x: Byte, y: Byte, z: Byte, ghost full: seq<Byte>)
    requires p + 3 <= |full| && full[p..p + 3] == [x, y, z] && FilledUpTo(buffer[..], full, p)
    modifies buffer
    ensures FilledUpTo(buffer[..], full, p + 3)
  {
    assert full[p] == x && full[p + 1] == y && full[p + 2] == z by {
      assert full[p..p + 3][0] == x && full[p..p + 3][1] == y && full[p..p + 3][2] == z;
    }
    Store(buffer, p, x);
    Store(buffer, p + 1, y);
    Store(buffer, p + 2, z);
  }

  lemma DecodedGroup(s: JsString, q: nat)
    requires 4 * q < |s|
    ensures 3 * q + 3 <= |DecodeGroups(s, 0)|
    ensures DecodeGroups(s, 0)[3 * q..3 * q + 3] == DecodeGroup(s, 4 * q)
  {
    hide DecodeGroup, DecodeGroups;
    DecodeGroupsAt(s, 0, q, 0);
    DecodeGroupsAt(s, 0, q, 1);
    DecodeGroupsAt(s, 0, q, 2);
  }

  method DecodeLoop(s: JsString) returns (buffer: array<Byte>)
    ensures fresh(buffer) && buffer[..] == Decode(s)
  {
    hide DecodeGroups, FilledUpTo, ValueAt, Byte0, Byte1, Byte2;
    var pads := 0;
    if |s| > 0 && s[|s| - 1] == PAD {
      pads := 1;
      if |s| > 1 && s[|s| - 2] == PAD {
        pads := 2;
      }
    }
    buffer := new Byte[BufferLength(|s|, pads)];
    ghost var full := DecodeGroups(s, 0);
    NothingFilled(buffer[..], full);
    var e, p := 0, 0;
    ghost var q := 0;
    while e < |s|
      invariant e == 4 * q && p == 3 * q
      invariant FilledUpTo(buffer[..], full, p)
    {
      var w, x, y, z := ValueAt(s, e), ValueAt(s, e + 1), ValueAt(s, e + 2), ValueAt(s, e + 3);
      DecodedGroup(s, q);
      StoreGroup(buffer, p, Byte0(w, x), Byte1(x, y), Byte2(y, z), full);
      e, p, q := e + 4, p + 3, q + 1;
    }
    AllFilled(buffer[..], s, p);
  }

  lemma NothingFilled(buffer: seq<Byte>, full: seq<Byte>)
    ensures FilledUpTo(buffer, full, 0)
  {
  }

  lemma AllFilled(buffer: seq<Byte>, s: JsString, p: nat)
    requires FilledUpTo(buffer, DecodeGroups(s, 0), p)
    requires 4 * p >= 3 * |s| && |buffer| == BufferLength(|s|, PadCount(s))
    ensures buffer == Decode(s)
  {
    hide DecodeGroups;
    DecodeGroupsLength(s, 0);
    assert |buffer| <= p;
    assert |buffer| <= |DecodeGroups(s, 0)|;
  }

  // ---------- the round trip ----------

  lemma SymbolRoundTrip(v: Sextet)
    ensures Lookup(Symbol(v)) == v && Symbol(v) != PAD
    ensures Lookup(PAD) == 0
  {
  }

  lemma SextetsRoundTrip(a: Byte, b: Byte, c: Byte)
    ensures Byte0(Sextet0(a), Sextet1(a, b)) == a
    ensures Byte1(Sextet1(a, b), Sextet2(b, c)) == b
    ensures Byte2(Sextet2(b, c), Sextet3(c)) == c
  {
  }

  lemma NoPadInGroup(bytes: seq<Byte>, i: nat)
    ensures forall m | 0 <= m < 4 :: EncodeGroup(bytes, i)[m] != PAD
  {
  }

  lemma EncodedLength(bytes: seq<Byte>)
    ensures |Encode(bytes)| == 4 * ByteGroups(|bytes|)
    ensures PadCount(Encode(bytes)) == Pads(|bytes|)
    ensures BufferLength(|Encode(bytes)|, Pads(|bytes|)) == |bytes|
  {
    hide EncodeGroup, EncodeGroups;
    EncodeGroupsLength(bytes, 0);
    if |bytes| > 0 {
      var q := ByteGroups(|bytes|) - 1;
      EncodeGroupsAt(bytes, 0, q, 1);
      EncodeGroupsAt(bytes, 0, q, 2);
      EncodeGroupsAt(bytes, 0, q, 3);
      NoPadInGroup(bytes, 3 * q);
    }
  }

  /** Past the end of the bytes a group has only zero bits. */
  lemma ZeroTail(bytes: seq<Byte>, i: nat, m: nat)
    requires i < |bytes| && ((m == 3 && i + 2 >= |bytes|) || (m == 2 && i + 1 >= |bytes|))
    ensures Sextets(bytes, i)[m] == 0
  {
  }

  /** Padding only replaces characters that stand for zero bits, so each
      character still reads as the six bits it was made from. */
  lemma EncodedValueAt(bytes: seq<Byte>, q: nat, m: nat)
    requires 3 * q < |bytes| && m < 4
    ensures ValueAt(Encode(bytes), 4 * q + m) == Sextets(bytes, 3 * q)[m]
  {
    hide Sextets;
    hide EncodeGroups, Lookup, Symbol;
    EncodeGroupsLength(bytes, 0);
    EncodeGroupsAt(bytes, 0, q, m);
    SymbolRoundTrip(Sextets(bytes, 3 * q)[m]);
    if 4 * q + m >= |EncodeGroups(bytes, 0)| - Pads(|bytes|) {
      ZeroTail(bytes, 3 * q, m);
    }
  }

  lemma BaseSixtyFour(word: int, s0: Sextet, s1: Sextet, s2: Sextet, s3: Sextet)
    requires word == 0x4_0000 * s0 as int + 0x1000 * s1 as int + 0x40 * s2 as int + s3 as int
    ensures word / 0x4_0000 % 0x40 == s0 && word / 0x1000 % 0x40 == s1
    ensures word / 0x40 % 0x40 == s2 && word % 0x40 == s3
  {
    assert word / 0x1000 == 0x40 * s0 as int + s1 as int;
    assert word / 0x40 == 0x1000 * s0 as int + 0x40 * s1 as int + s2 as int;
  }

  /** The four sextets are the 24 bits of the three bytes, highest first. */
  lemma SextetsAreBits(a: Byte, b: Byte, c: Byte)
    ensures var word := 0x1_0000 * a as int + 0x100 * b as int + c as int;
            && Sextet0(a) == word / 0x4_0000 % 0x40
            && Sextet1(a, b) == word / 0x1000 % 0x40
            && Sextet2(b, c) == word / 0x40 % 0x40
            && Sextet3(c) == word % 0x40
  {
    hide Sextet0, Sextet1, Sextet2, Sextet3;
    SextetsHoldBits(a, b, c);
    BaseSixtyFour(0x1_0000 * a as int + 0x100 * b as int + c as int,
                  Sextet0(a), Sextet1(a, b), Sextet2(b, c), Sextet3(c));
  }

  lemma SextetsHoldBits(a: Byte, b: Byte, c: Byte)
    ensures 0x1_0000 * a as int + 0x100 * b as int + c as int ==
            0x4_0000 * Sextet0(a) as int + 0x1000 * Sextet1(a, b) as int + 0x40 * Sextet2(b, c) as int
            + Sextet3(c) as int
  {
  }

  /** Section 4 of RFC 4648, character by character: each three bytes, with zeros
      past the end, are read as 24 bits and written as four symbols, of which those
      without a bit of the input are replaced by the padding character. */
  lemma EncodedCharacter(bytes: seq<Byte>, q: nat, m: nat)
    requires 3 * q < |bytes| && m < 4
    ensures 4 * q + m < |Encode(bytes)|
    ensures var word := 0x1_0000 * ByteAt(bytes, 3 * q) as int + 0x100 * ByteAt(bytes, 3 * q + 1) as int
                        + ByteAt(bytes, 3 * q + 2) as int;
            var sextet := if m == 0 then word / 0x4_0000 % 0x40 else if m == 1 then word / 0x1000 % 0x40
                          else if m == 2 then word / 0x40 % 0x40 else word % 0x40;
            Encode(bytes)[4 * q + m] == if 3 * q + m <= |bytes| then Symbol(sextet) else '=' as int
  {
    hide EncodeGroups, Symbol, Sextet0, Sextet1, Sextet2, Sextet3;
    EncodeGroupsLength(bytes, 0);
    EncodeGroupsAt(bytes, 0, q, m);
    SextetsAreBits(ByteAt(bytes, 3 * q), ByteAt(bytes, 3 * q + 1), ByteAt(bytes, 3 * q + 2));
  }

  /** What any text decodes to, whether it was encoded or not: its length is three
      quarters of the text, less one for each of at most two padding characters at
      the end, truncated; and each byte is a part of the 24 bits of its group. */
  lemma DecodedLength(s: JsString)
    ensures var pads := if s == [] || s[|s| - 1] != '=' as int then 0
                        else if |s| == 1 || s[|s| - 2] != '=' as int then 1 else 2;
            var quarters := 0.75 * |s| as real - pads as real;
            |Decode(s)| == if quarters < 0.0 then 0 else quarters.Floor
  {
  }

  lemma DecodedByte(s: JsString, q: nat, m: nat)
    requires m < 3 && 3 * q + m < |Decode(s)|
    ensures var w := if 4 * q < |s| then Lookup(s[4 * q]) as int else 0;
            var x := if 4 * q + 1 < |s| then Lookup(s[4 * q + 1]) as int else 0;
            var y := if 4 * q + 2 < |s| then Lookup(s[4 * q + 2]) as int else 0;
            var z := if 4 * q + 3 < |s| then Lookup(s[4 * q + 3]) as int else 0;
            var word := 0x4_0000 * w + 0x1000 * x + 0x40 * y + z;
            Decode(s)[3 * q + m] ==
            if m == 0 then word / 0x1_0000 else if m == 1 then word / 0x100 % 0x100 else word % 0x100
  {
    hide Lookup, Byte0, Byte1, Byte2;
    DecodeGroupsLength(s, 0);
    DecodeGroupsAt(s, 0, q, m);
    BytesAreBits(ValueAt(s, 4 * q), ValueAt(s, 4 * q + 1), ValueAt(s, 4 * q + 2), ValueAt(s, 4 * q + 3));
  }

  lemma BytesAreBits(w: Sextet, x: Sextet, y: Sextet, z: Sextet)
    ensures var word := 0x4_0000 * w as int + 0x1000 * x as int + 0x40 * y as int + z as int;
            && Byte0(w, x) == word / 0x1_0000
            && Byte1(x, y) == word / 0x100 % 0x100
            && Byte2(y, z) == word % 0x100
  {
    hide Byte0, Byte1, Byte2;
    BytesHoldBits(w, x, y, z);
    BaseByte(0x4_0000 * w as int + 0x1000 * x as int + 0x40 * y as int + z as int,
             Byte0(w, x), Byte1(x, y), Byte2(y, z));
  }

  lemma BytesHoldBits(w: Sextet, x: Sextet, y: Sextet, z: Sextet)
    ensures 0x4_0000 * w as int + 0x1000 * x as int + 0x40 * y as int + z as int ==
            0x1_0000 * Byte0(w, x) as int + 0x100 * Byte1(x, y) as int + Byte2(y, z) as int
  {
  }

  lemma BaseByte(word: int, a: Byte, b: Byte, c: Byte)
    requires word == 0x1_0000 * a as int + 0x100 * b as int + c as int
    ensures word / 0x1_0000 == a && word / 0x100 % 0x100 == b && word % 0x100 == c
  {
    assert word / 0x100 == 0x100 * a as int + b as int;
  }

  lemma GroupRoundTrip(bytes: seq<Byte>, q: nat)
    requires 3 * q < |bytes|
    ensures DecodeGroup(Encode(bytes), 4 * q) == [bytes[3 * q], ByteAt(bytes, 3 * q + 1), ByteAt(bytes, 3 * q + 2)]
  {
    hide Encode, ValueAt, Sextet0, Sextet1, Sextet2, Sextet3, Byte0, Byte1, Byte2;
    EncodedValueAt(bytes, q, 0);
    EncodedValueAt(bytes, q, 1);
    EncodedValueAt(bytes, q, 2);
    EncodedValueAt(bytes, q, 3);
    SextetsRoundTrip(ByteAt(bytes, 3 * q), ByteAt(bytes, 3 * q + 1), ByteAt(bytes, 3 * q + 2));
  }

  lemma RoundTripAt(bytes: seq<Byte>, q: nat, m: nat)
    requires 3 * q + m < |bytes| && m < 3
    ensures |Decode(Encode(bytes))| == |bytes|
    ensures Decode(Encode(bytes))[3 * q + m] == bytes[3 * q + m]
  {
    hide Encode, DecodeGroup, DecodeGroups;
    EncodedLength(bytes);
    GroupRoundTrip(bytes, q);
    DecodeGroupsAt(Encode(bytes), 0, q, m);
  }

  /** Decoding inverts encoding, for byte sequences of every length. */
  lemma RoundTrip(bytes: seq<Byte>)
    ensures Decode(Encode(bytes)) == bytes
  {
    EncodedLength(bytes);
    forall t | 0 <= t < |bytes| ensures Decode(Encode(bytes))[t] == bytes[t] {
      RoundTripAt(bytes, t / 3, t % 3);
    }
  }
}

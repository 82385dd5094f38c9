/** UTF-8 (section 3 of RFC 3629) and UCS-2, as encoding.c converts them. */
module Encoding {
  import opened Words

  predicate Surrogate(u: int) { 0xD800 <= u <= 0xDFFF }

  // ucs2_to_utf8: the octets it writes before the terminating zero, and what it returns.
  datatype Utf8 = Utf8(octets: seq<byte>, ret: int)

  function Encode(u: int): Utf8 {
    if u < 0x80 then Utf8([u % 0x100], 1)
    else if u < 0x800 then Utf8([0xC0 + u / 0x40, 0x80 + u % 0x40], 2)
    else if u < 0xFFFF then
      if Surrogate(u) then Utf8([], 0)
      else Utf8([0xE0 + u / 0x1000, 0x80 + u / 0x40 % 0x40, 0x80 + u % 0x40], 3)
    else if 0x10000 <= u < 0x10FFFF then
      Utf8([0xF0 + u / 0x40000, 0x80 + u / 0x1000 % 0x40, 0x80 + u / 0x40 % 0x40, 0x80 + u % 0x40], 4)
    else Utf8([], -1)
  }

  // An octet of a string, which a zero follows.
  function Octet(s: seq<byte>, i: nat): byte { if i < |s| then s[i] else 0 }

  // utf8_to_ucs2: the value, or -1, and how many octets it goes on.
  datatype Unit = Unit(value: int, step: nat)

  function Decode(s: seq<byte>): (d: Unit)
    ensures d.value == -1 <==> d.step == 0
    ensures d.step <= |s| && d.value < 0x10000
  {
    if Octet(s, 0) == 0 then Unit(-1, 0)
    else if Octet(s, 0) < 0x80 then Unit(Octet(s, 0), 1)
    else if Octet(s, 0) >= 0xE0 then
      if Octet(s, 1) == 0 || Octet(s, 2) == 0 then Unit(-1, 0)
      else Unit(Octet(s, 0) % 0x10 * 0x1000 + Octet(s, 1) % 0x40 * 0x40 + Octet(s, 2) % 0x40, 3)
    else if Octet(s, 0) >= 0xC0 then
      if Octet(s, 1) == 0 then Unit(-1, 0) else Unit(Octet(s, 0) % 0x20 * 0x40 + Octet(s, 1) % 0x40, 2)
    else Unit(-1, 0)
  }

  // utf8s_to_ucs2s: the units up to the first failure. 0xFFFF, stored in 16 bits, is taken for one.
  function DecodeAll(s: seq<byte>): seq<uint16>
    decreases |s|
  {
    var d := Decode(s);
    if d.value == -1 || d.value == 0xFFFF then [] else [d.value] + DecodeAll(s[d.step..])
  }

  // The encodings of some units, one behind the other.
  function EncodeAll(units: seq<uint16>): seq<byte> {
    if |units| == 0 then [] else Encode(units[0]).octets + EncodeAll(units[1..])
  }

  // The units that come back: up to the first zero, and without those that have no encoding.

  predicate Encodable(u: int) { u != 0xFFFF && !Surrogate(u) }

  function Returned(units: seq<uint16>): seq<uint16> {
    if |units| == 0 || units[0] == 0 then []
    else if Encodable(units[0]) then [units[0]] + Returned(units[1..])
    else Returned(units[1..])
  }

  // The UTF-8 of a code point by section 4 of RFC 3629: the ranges of its octets, and the value that they hold.

  predicate Tail(c: byte) { 0x80 <= c <= 0xBF }

  function Bits(c: byte, lead: nat): int { c - lead }

  predicate Utf8Of(s: seq<byte>, u: nat) {
    match |s|
    case 1 => s[0] <= 0x7F && u == s[0]
    case 2 => 0xC2 <= s[0] <= 0xDF && Tail(s[1]) && u == 0x40 * Bits(s[0], 0xC0) + Bits(s[1], 0x80)
    case 3 =>
      && 0xE0 <= s[0] <= 0xEF && Tail(s[1]) && Tail(s[2])
      && (s[0] == 0xE0 ==> s[1] >= 0xA0) && (s[0] == 0xED ==> s[1] <= 0x9F)
      && u == 0x1000 * Bits(s[0], 0xE0) + 0x40 * Bits(s[1], 0x80) + Bits(s[2], 0x80)
    case 4 =>
      && 0xF0 <= s[0] <= 0xF4 && Tail(s[1]) && Tail(s[2]) && Tail(s[3])
      && (s[0] == 0xF0 ==> s[1] >= 0x90) && (s[0] == 0xF4 ==> s[1] <= 0x8F)
      && u == 0x40000 * Bits(s[0], 0xF0) + 0x1000 * Bits(s[1], 0x80) + 0x40 * Bits(s[2], 0x80) + Bits(s[3], 0x80)
    case _ => false
  }

  // It is what the encoder writes, and it returns its length, for all code points but two.
  lemma EncodeIsUtf8(u: nat)
    ensures var e := Encode(u);
            if u > 0x10FFFF || Surrogate(u) || u == 0xFFFF || u == 0x10FFFF
            then e.octets == [] && e.ret == if Surrogate(u) then 0 else -1
            else Utf8Of(e.octets, u) && e.ret == |e.octets|
  {
    if 0x80 <= u < 0x800 {
      TwoOctets(u, u / 0x40, u % 0x40);
    } else if 0x800 <= u < 0xFFFF {
      if !Surrogate(u) { EncodesThree(u); }
    } else if 0x10000 <= u < 0x10FFFF {
      EncodesFour(u);
    }
    hide Utf8Of;
  }

  lemma EncodesThree(u: nat)
    requires 0x800 <= u < 0xFFFF && !Surrogate(u)
    ensures Utf8Of(Encode(u).octets, u)
  {
    hide Utf8Of;
    ThreeParts(u);
    ThreeOctets(u, u / 0x1000, u / 0x40 % 0x40, u % 0x40);
  }

  lemma EncodesFour(u: nat)
    requires 0x10000 <= u < 0x10FFFF
    ensures Utf8Of(Encode(u).octets, u)
  {
    hide Utf8Of;
    ThreeParts(u / 0x40);
    Shifts(u);
    FourParts(u);
    FourOctets(u, u / 0x40000, u / 0x1000 % 0x40, u / 0x40 % 0x40, u % 0x40);
  }

  lemma TwoOctets(u: nat, a: nat, b: nat)
    requires u == 0x40 * a + b && b < 0x40 && 0x80 <= u < 0x800
    ensures Utf8Of([0xC0 + a, 0x80 + b], u)
  {}

  lemma ThreeOctets(u: nat, a: nat, b: nat, c: nat)
    requires u == 0x1000 * a + 0x40 * b + c && b < 0x40 && c < 0x40 && 0x800 <= u < 0x10000 && !Surrogate(u)
    ensures Utf8Of([0xE0 + a, 0x80 + b, 0x80 + c], u)
  {}

  lemma FourOctets(u: nat, a: nat, b: nat, c: nat, d: nat)
    requires u == 0x40000 * a + 0x1000 * b + 0x40 * c + d && b < 0x40 && c < 0x40 && d < 0x40
    requires 0x10000 <= u < 0x110000
    ensures Utf8Of([0xF0 + a, 0x80 + b, 0x80 + c, 0x80 + d], u)
  {}

  lemma FourParts(u: nat)
    ensures u == 0x40 * (u / 0x40) + u % 0x40
  {}

  // The decoder takes every UTF-8 of sixteen bits for what it is, whatever follows.
  lemma DecodesUtf8(s: seq<byte>, u: uint16, rest: seq<byte>)
    requires Utf8Of(s, u) && u > 0
    ensures Decode(s + rest) == Unit(u, |s|)
  {
    var t := s + rest;
    if |s| == 2 {
      DecodeTwo(t, s[0] - 0xC0, s[1] - 0x80);
    } else if |s| == 3 {
      DecodeThree(t, s[0] - 0xE0, s[1] - 0x80, s[2] - 0x80);
    }
  }

  // So a text of them is decoded up to the first zero or U+FFFF, which counts as the failure value in sixteen bits.
  lemma DecodesFirst(s: seq<byte>, u: uint16, rest: seq<byte>)
    requires Utf8Of(s, u)
    ensures DecodeAll(s + rest) == if u == 0 || u == 0xFFFF then [] else [u] + DecodeAll(rest)
  {
    if u == 0 {
      assert (s + rest)[0] == 0;
    } else {
      DecodesUtf8(s, u, rest);
      assert (s + rest)[|s|..] == rest;
    }
  }

  // It fails exactly on a first octet that none starts with, and where the text ends inside a unit.
  lemma DecodeFails(s: seq<byte>)
    ensures Decode(s).value == -1 <==>
              || Octet(s, 0) == 0 || Tail(Octet(s, 0))
              || (Octet(s, 0) >= 0xC0 && Octet(s, 1) == 0) || (Octet(s, 0) >= 0xE0 && Octet(s, 2) == 0)
  {}

  lemma DecodeEncode(u: uint16, rest: seq<byte>)
    requires 0 < u && Encodable(u)
    ensures Decode(Encode(u).octets + rest) == Unit(u, |Encode(u).octets|) && |Encode(u).octets| == Encode(u).ret
  {
    hide Encode, Decode, Utf8Of;
    EncodeIsUtf8(u);
    DecodesUtf8(Encode(u).octets, u, rest);
  }

  lemma DecodeThree(s: seq<byte>, a: nat, b: nat, c: nat)
    requires a < 0x10 && b < 0x40 && c < 0x40
    requires Octet(s, 0) == 0xE0 + a && Octet(s, 1) == 0x80 + b && Octet(s, 2) == 0x80 + c
    ensures Decode(s) == Unit(0x1000 * a + 0x40 * b + c, 3)
  {}

  lemma DecodeTwo(s: seq<byte>, a: nat, b: nat)
    requires a < 0x20 && b < 0x40 && Octet(s, 0) == 0xC0 + a && Octet(s, 1) == 0x80 + b
    ensures Decode(s) == Unit(0x40 * a + b, 2)
  {}

  lemma ThreeParts(u: nat)
    ensures u == 0x1000 * (u / 0x1000) + 0x40 * (u / 0x40 % 0x40) + u % 0x40
  {
    assert u / 0x40 / 0x40 == u / 0x1000;
  }

  lemma DecodeOne(u: uint16, rest: seq<byte>)
    ensures if u == 0 then DecodeAll(Encode(u).octets + rest) == []
            else if Encodable(u) then DecodeAll(Encode(u).octets + rest) == [u] + DecodeAll(rest)
            else Encode(u).octets + rest == rest
  {
    var s := Encode(u).octets + rest;
    if u == 0 {
      assert Octet(s, 0) == 0;
    } else if Encodable(u) {
      DecodeEncode(u, rest);
      assert s[|Encode(u).octets|..] == rest;
    }
  }

  // Decoding the encodings of any units gives back exactly those that can come back.
  lemma {:induction false} RoundTrip(units: seq<uint16>)
    ensures DecodeAll(EncodeAll(units)) == Returned(units)
    decreases |units|
  {
    if |units| == 0 {
    } else {
      RoundTrip(units[1..]);
      DecodeOne(units[0], EncodeAll(units[1..]));
    }
  }

  // So the same units come back exactly if all are in 1..0xFFFE and none is a surrogate.
  lemma {:induction false} RoundTripIff(units: seq<uint16>)
    ensures DecodeAll(EncodeAll(units)) == units <==> forall i | 0 <= i < |units| :: 0 < units[i] && Encodable(units[i])
  {
    RoundTrip(units);
    ReturnedIff(units);
  }

  lemma {:induction false} ReturnedIff(units: seq<uint16>)
    ensures |Returned(units)| <= |units|
    ensures Returned(units) == units <==> forall i | 0 <= i < |units| :: 0 < units[i] && Encodable(units[i])
    decreases |units|
  {
    if |units| == 0 {
    } else {
      ReturnedIff(units[1..]);
      assert units == [units[0]] + units[1..];
      assert forall i | 1 <= i < |units| :: units[i] == units[1..][i - 1];
      if forall i | 0 <= i < |units| :: 0 < units[i] && Encodable(units[i]) {
        assert forall i | 0 <= i < |units[1..]| :: units[1..][i] == units[i + 1];
      }
    }
  }

  // A code point beyond 16 bits is encoded in four octets, but the decoder takes three of them for another one and
  // ends.
  lemma FourOctetsMisread(u: int)
    requires 0x10000 <= u < 0x10FFFF
    ensures DecodeAll(Encode(u).octets) == [u / 0x40]
  {
    var s := Encode(u).octets;
    ThreeParts(u / 0x40);
    Shifts(u);
    DecodeFour(s, u / 0x40000, u / 0x1000 % 0x40, u / 0x40 % 0x40);
    assert Decode(s[3..]) == Unit(-1, 0);
  }

  lemma Shifts(u: nat)
    ensures u / 0x40 / 0x1000 == u / 0x40000 && u / 0x40 / 0x40 == u / 0x1000
  {}

  lemma DecodeFour(s: seq<byte>, a: nat, b: nat, c: nat)
    requires a < 0x10 && b < 0x40 && c < 0x40
    requires Octet(s, 0) == 0xF0 + a && Octet(s, 1) == 0x80 + b && Octet(s, 2) == 0x80 + c
    ensures Decode(s) == Unit(0x1000 * a + 0x40 * b + c, 3)
  {}

  // ucs2_to_utf8, writing to utf8 from place at on.
  method UcsToUtf8(ucs2: int, utf8: array<byte>, at: nat) returns (ret: int)
    requires at + 5 <= utf8.Length
    modifies utf8
    ensures ret == Encode(ucs2).ret
    ensures var octets := Encode(ucs2).octets;
            utf8[..] == if ret <= 0 then old(utf8[..])
                        else old(utf8[..at]) + octets + [0] + old(utf8[at + |octets| + 1..])
  {
    if ucs2 < 0x80 {
      utf8[at], utf8[at + 1] := ucs2 % 0x100, 0;
      return 1;
    }
    if ucs2 < 0x800 {
      utf8[at], utf8[at + 1], utf8[at + 2] := 0xC0 + ucs2 / 0x40, 0x80 + ucs2 % 0x40, 0;
      return 2;
    }
    if ucs2 < 0xFFFF {
      if Surrogate(ucs2) {
        return 0;
      }
      utf8[at], utf8[at + 1], utf8[at + 2] := 0xE0 + ucs2 / 0x1000, 0x80 + ucs2 / 0x40 % 0x40, 0x80 + ucs2 % 0x40;
      utf8[at + 3] := 0;
      return 3;
    }
    if 0x10000 <= ucs2 < 0x10FFFF {
      utf8[at], utf8[at + 1] := 0xF0 + ucs2 / 0x40000, 0x80 + ucs2 / 0x1000 % 0x40;
      utf8[at + 2], utf8[at + 3], utf8[at + 4] := 0x80 + ucs2 / 0x40 % 0x40, 0x80 + ucs2 % 0x40, 0;
      return 4;
    }
    return -1;
  }

  // The units of a text, encoded one behind the other into utf8.
  method EncodeText(units: seq<uint16>, utf8: array<byte>) returns (end: nat)
    requires 4 * |units| + 5 <= utf8.Length
    modifies utf8
    ensures end <= utf8.Length && utf8[..end] == EncodeAll(units)
    ensures |units| > 0 && Encode(units[|units| - 1]).ret > 0 ==> end < utf8.Length && utf8[end] == 0
  {
    end := 0;
    var i: nat := 0;
    while i < |units|
      invariant 0 <= i <= |units| && end <= 4 * i && utf8[..end] == EncodeAll(units[..i])
      invariant i > 0 && Encode(units[i - 1]).ret > 0 ==> utf8[end] == 0
    {
      end := EncodeUnit(units[i], utf8, end);
      EncodeMore(units[..i], units[i]);
      assert units[..i + 1] == units[..i] + [units[i]];
      i := i + 1;
    }
    assert units[..i] == units;
  }

  method EncodeUnit(u: uint16, utf8: array<byte>, at: nat) returns (end: nat)
    requires at + 5 <= utf8.Length
    modifies utf8
    ensures at <= end <= at + 4 && utf8[..end] == old(utf8[..at]) + Encode(u).octets
    ensures Encode(u).ret > 0 ==> utf8[end] == 0
  {
    RetIsLength(u);
    var ret := UcsToUtf8(u, utf8, at);
    end := if ret > 0 then at + ret else at;
  }

  lemma RetIsLength(u: uint16)
    ensures if Encode(u).ret > 0 then |Encode(u).octets| == Encode(u).ret <= 3 else Encode(u).octets == []
  {}

  lemma {:induction false} EncodeMore(units: seq<uint16>, u: uint16)
    ensures EncodeAll(units + [u]) == EncodeAll(units) + Encode(u).octets
    decreases |units|
  {
    if |units| == 0 {
    } else {
      EncodeMore(units[1..], u);
      assert (units + [u])[1..] == units[1..] + [u];
    }
  }

  // utf8s_to_ucs2s. The length it returns is kept in 16 bits.
  method Utf8ToUcs(out: array<uint16>, input: seq<byte>) returns (len: nat, ghost n: nat)
    requires out.Length > |DecodeAll(input)|
    modifies out
    ensures n == |DecodeAll(input)| && out[..n] == DecodeAll(input) && out[n] == 0 && len == n % 0x1_0000
  {
    len, n := 0, 0;
    var at: nat, to: nat := 0, 0;
    ghost var all := DecodeAll(input);
    while true
      invariant at <= |input| && to == n <= |all| < out.Length && len == n % 0x1_0000
      invariant Left(input, at, all, n) && out[..n] == all[..n]
      decreases |input| - at
    {
      var d := Decode(input[at..]);
      DecodeTurn(input, at, all, n, d);
      if d.value == -1 || d.value == 0xFFFF {
        out[to] := 0;
        return;
      }
      out[to] := d.value;
      assert out[..n + 1] == out[..n] + [d.value];
      Count16(n);
      at, to, n := at + d.step, to + 1, n + 1;
      len := (len + 1) % 0x1_0000;
    }
  }

  // What is left to decode is what is left of the result.
  ghost predicate Left(input: seq<byte>, at: nat, all: seq<uint16>, n: nat)
    requires at <= |input| && n <= |all|
  {
    all[n..] == DecodeAll(input[at..])
  }

  lemma Count16(n: nat)
    ensures (n % 0x1_0000 + 1) % 0x1_0000 == (n + 1) % 0x1_0000
  {}

  lemma DecodeTurn(input: seq<byte>, at: nat, all: seq<uint16>, n: nat, d: Unit)
    requires at <= |input| && n <= |all| && Left(input, at, all, n) && d == Decode(input[at..])
    ensures at + d.step <= |input|
    ensures if d.value == -1 || d.value == 0xFFFF then n == |all|
            else d.step > 0 && n < |all| && all[n] == d.value && Left(input, at + d.step, all, n + 1)
                 && all[..n + 1] == all[..n] + [d.value]
  {
    assert input[at..][d.step..] == input[at + d.step..];
    if d.value != -1 && d.value != 0xFFFF {
      assert all[n..][1..] == all[n + 1..] && all[n] == all[n..][0];
    }
  }
}

/** OSTA compressed unicode (UDF 2.1.1) to modified UTF-8: `udf_cs0_to_mutf8` of
    src/udf_fs.c, and the decoder it is meant for. */
module Cs0 {
  import opened Bytes

  newtype unit = x: int | 0 <= x < 0x1_0000

  // ------------------------------------------------------------------ code units

  function Units8(s: seq<u8>): seq<unit> {
    if s == [] then [] else [s[0] as unit] + Units8(s[1..])
  }

  /** Big-endian pairs; an odd byte at the end is dropped. */
  function Units16(s: seq<u8>): seq<unit> {
    if |s| < 2 then [] else [s[0] as unit * 0x100 + s[1] as unit] + Units16(s[2..])
  }

  /** The 8-bit or 16-bit units of a string, without the compression id. */
  function Units(cs0: seq<u8>): (u: Option<seq<unit>>)
  {
    if cs0 == [] then Some([])
    else if cs0[0] == 8 then Some(Units8(cs0[1..]))
    else if cs0[0] == 16 then Some(Units16(cs0[1..]))
    else None
  }

  /** Unit k of a string: identifier 8 has one byte a unit, 16 has two, the greater first. */
  function CodeUnit(cs0: seq<u8>, k: nat): unit
    requires cs0 != [] && (if cs0[0] == 8 then k + 1 < |cs0| else 2 * k + 2 < |cs0|)
  {
    if cs0[0] == 8 then cs0[1 + k] as unit else cs0[1 + 2 * k] as unit * 0x100 + cs0[2 + 2 * k] as unit
  }

  function UnitCount(cs0: seq<u8>): nat {
    if cs0 == [] then 0 else if cs0[0] == 8 then |cs0| - 1 else (|cs0| - 1) / 2
  }

  function CodeUnits(cs0: seq<u8>): (u: seq<unit>) {
    seq(UnitCount(cs0), k requires 0 <= k < UnitCount(cs0) => CodeUnit(cs0, k))
  }

  lemma {:induction false} Units8Are(s: seq<u8>)
    ensures |Units8(s)| == |s| && forall k :: 0 <= k < |s| ==> Units8(s)[k] == s[k] as unit
  {
    if s != [] {
      Units8Are(s[1..]);
    }
  }

  lemma {:induction false} Units16Are(s: seq<u8>)
    ensures |Units16(s)| == |s| / 2
    ensures forall k :: 0 <= k < |s| / 2 ==> Units16(s)[k] == s[2 * k] as unit * 0x100 + s[2 * k + 1] as unit
  {
    if |s| >= 2 {
      Units16Are(s[2..]);
      forall k | 0 <= k < |s| / 2 ensures Units16(s)[k] == s[2 * k] as unit * 0x100 + s[2 * k + 1] as unit {
        if k > 0 {
          assert Units16(s)[k] == Units16(s[2..])[k - 1];
          assert s[2..][2 * (k - 1)] == s[2 * k] && s[2..][2 * (k - 1) + 1] == s[2 * k + 1];
        }
      }
    }
  }

  lemma UnitsAre(cs0: seq<u8>)
    ensures Units(cs0).Some? <==> cs0 == [] || cs0[0] == 8 || cs0[0] == 16
    ensures Units(cs0).Some? ==> Units(cs0).value == CodeUnits(cs0)
  {
    hide Units8; hide Units16;
    if cs0 == [] {
    } else if cs0[0] == 8 {
      Units8Are(cs0[1..]);
    } else if cs0[0] == 16 {
      Units16Are(cs0[1..]);
    }
  }

  // -------------------------------------------------------------------- encoding

  /** `utf16lo_to_mutf8`: NUL takes two bytes. */
  function EncodeLow(ch: unit): (s: seq<u8>)
    requires ch < 0x800
    ensures 1 <= |s| <= 2 && forall i :: 0 <= i < |s| ==> s[i] != 0
  {
    if ch != 0 && ch < 0x80 then [ch as u8] else [(0xc0 + ch / 0x40) as u8, (0x80 + ch % 0x40) as u8]
  }

  /** `utf16_to_mutf8`: U+07FF already takes three bytes. */
  function EncodeUnit(ch: unit): (s: seq<u8>)
    ensures 1 <= |s| <= 3 && forall i :: 0 <= i < |s| ==> s[i] != 0
  {
    if ch < 0x7ff then EncodeLow(ch)
    else [(0xe0 + ch / 0x1000) as u8, (0x80 + ch / 0x40 % 0x40) as u8, (0x80 + ch % 0x40) as u8]
  }

  /** Encoding a unit only depends on the unit, whichever macro is used. */
  function Encode(units: seq<unit>): (s: seq<u8>)
    ensures |units| <= |s| && forall i :: 0 <= i < |s| ==> s[i] != 0
  {
    if units == [] then [] else EncodeUnit(units[0]) + Encode(units[1..])
  }

  /** The C string that the function returns, without its NUL; absent if NULL. */
  function Mutf8(cs0: seq<u8>): (r: Option<seq<u8>>)
    ensures r.Some? ==> forall i :: 0 <= i < |r.value| ==> r.value[i] != 0
  {
    match Units(cs0)
    case None => None
    case Some(units) => Some(Encode(units))
  }

  lemma {:induction false} EncodeAppend(a: seq<unit>, ch: unit)
    ensures Encode(a + [ch]) == Encode(a) + EncodeUnit(ch)
  {
    if a == [] {
      assert a + [ch] == [ch] && [ch][1..] == [];
      assert EncodeUnit(ch) + Encode([]) == EncodeUnit(ch) == Encode(a) + EncodeUnit(ch);
    } else {
      assert (a + [ch])[1..] == a[1..] + [ch];
      EncodeAppend(a[1..], ch);
      Assoc(EncodeUnit(a[0]), Encode(a[1..]), EncodeUnit(ch));
    }
  }

  // -------------------------------------------------------------------- decoding

  predicate IsContinuation(b: u8) { 0x80 <= b < 0xc0 }

  function Then(u: unit, rest: Option<seq<unit>>): Option<seq<unit>> {
    if rest.Some? then Some([u] + rest.value) else None
  }

  /** A decoder of modified UTF-8. It wants lead bytes of the three forms, each with its
      continuation bytes, and does not mind that a form is longer than need be. */
  function Decode(s: seq<u8>): (u: Option<seq<unit>>) {
    if s == [] then Some([])
    else if s[0] < 0x80 then Then(s[0] as unit, Decode(s[1..]))
    else if 0xc0 <= s[0] < 0xe0 && |s| >= 2 && IsContinuation(s[1]) then
      Then(s[0] as unit % 0x20 * 0x40 + s[1] as unit % 0x40, Decode(s[2..]))
    else if 0xe0 <= s[0] < 0xf0 && |s| >= 3 && IsContinuation(s[1]) && IsContinuation(s[2]) then
      Then(s[0] as unit % 0x10 * 0x1000 + s[1] as unit % 0x40 * 0x40 + s[2] as unit % 0x40, Decode(s[3..]))
    else None
  }

  lemma TwoBytes(ch: unit)
    requires ch < 0x7ff
    ensures (0xc0 + ch / 0x40) % 0x20 * 0x40 + (0x80 + ch % 0x40) % 0x40 == ch && 0x80 <= 0xc0 + ch / 0x40 < 0xe0
  {}

  lemma LowBits(r: unit)
    requires r < 0x40
    ensures (0x80 + r) % 0x40 == r
  {}

  lemma HighBits(ch: unit)
    ensures ch / 0x1000 == ch / 0x40 / 0x40 && (0xe0 + ch / 0x1000) % 0x10 == ch / 0x1000
  {}

  lemma ThreeBytes(ch: unit)
    requires ch >= 0x7ff
    ensures 0xe0 <= 0xe0 + ch / 0x1000 < 0xf0
    ensures ch ==
      (0xe0 + ch / 0x1000) % 0x10 * 0x1000 + (0x80 + ch / 0x40 % 0x40) % 0x40 * 0x40 + (0x80 + ch % 0x40) % 0x40
  {
    var mid := ch / 0x40;
    assert ch == mid * 0x40 + ch % 0x40;
    LowBits(ch % 0x40);
    LowBits(mid % 0x40);
    HighBits(ch);
  }

  lemma DecodeOne(ch: unit, rest: seq<u8>)
    ensures Decode(EncodeUnit(ch) + rest) == Then(ch, Decode(rest))
  {
    var e := EncodeUnit(ch);
    var s := e + rest;
    assert s[|e|..] == rest && s[0] == e[0];
    if |e| == 2 {
      TwoBytes(ch);
      assert s[1] == e[1] && IsContinuation(s[1]);
    } else if |e| == 3 {
      ThreeBytes(ch);
      assert s[1] == e[1] && s[2] == e[2] && IsContinuation(s[1]) && IsContinuation(s[2]);
    }
  }

  /** The decoder recovers every code unit, whatever units there are. */
  lemma {:induction false} DecodeEncode(units: seq<unit>)
    ensures Decode(Encode(units)) == Some(units)
  {
    if units != [] {
      DecodeEncode(units[1..]);
      DecodeOne(units[0], Encode(units[1..]));
      assert [units[0]] + units[1..] == units;
    }
  }

  /** Which strings convert, which of them to nothing. */
  lemma ConvertedIff(cs0: seq<u8>)
    ensures Mutf8(cs0).Some? <==> cs0 == [] || cs0[0] == 8 || cs0[0] == 16
    ensures Mutf8(cs0).Some? ==> (Mutf8(cs0).value == [] <==> UnitCount(cs0) == 0)
  {
    UnitsAre(cs0);
  }

  /** Names compare equal after conversion iff their code units are equal, whichever
      compression id each was recorded with. */
  lemma SameNameIffSameUnits(a: seq<u8>, b: seq<u8>)
    requires Mutf8(a).Some? && Mutf8(b).Some?
    ensures Mutf8(a) == Mutf8(b) <==> Units(a) == Units(b)
  {
    DecodeEncode(Units(a).value);
    DecodeEncode(Units(b).value);
  }

  /** Bytes of the standard UTF-8 form of a unit. */
  function ShortestLength(ch: unit): nat { if ch < 0x80 then 1 else if ch < 0x800 then 2 else 3 }

  /** The output is the shortest form but for two units: NUL, on purpose, and U+07FF. */
  lemma ShortestIff(ch: unit)
    ensures |EncodeUnit(ch)| == ShortestLength(ch) <==> ch != 0 && ch != 0x7ff
  {}

  /** Standard UTF-8 (RFC 3629, section 3) of a unit taken as a code point. */
  function Utf8(ch: unit): seq<u8> {
    if ch < 0x80 then [ch as u8]
    else if ch < 0x800 then [(0xc0 + ch / 64) as u8, (0x80 + ch % 64) as u8]
    else [(0xe0 + ch / 4096) as u8, (0x80 + ch / 64 % 64) as u8, (0x80 + ch % 64) as u8]
  }

  /** What stands for a unit in the output. */
  function Written(ch: unit): seq<u8> {
    if ch == 0 then [0xc0, 0x80] else if ch == 0x7ff then [0xe0, 0x9f, 0xbf] else Utf8(ch)
  }

  function WrittenAll(units: seq<unit>): seq<u8> {
    if units == [] then [] else Written(units[0]) + WrittenAll(units[1..])
  }

  /** Every unit but NUL and U+07FF is written in standard UTF-8. */
  lemma UnitIsWritten(ch: unit)
    ensures EncodeUnit(ch) == Written(ch)
  {}

  lemma {:induction false} NameIsWritten(units: seq<unit>)
    ensures Encode(units) == WrittenAll(units)
  {
    if units != [] {
      UnitIsWritten(units[0]);
      NameIsWritten(units[1..]);
    }
  }

  lemma ConvertedIs(cs0: seq<u8>)
    requires Mutf8(cs0).Some?
    ensures Mutf8(cs0).value == WrittenAll(CodeUnits(cs0))
  {
    UnitsAre(cs0);
    NameIsWritten(CodeUnits(cs0));
  }

  /** What is written tells the units apart. */
  lemma WrittenIsUnique(a: seq<unit>, b: seq<unit>)
    ensures WrittenAll(a) == WrittenAll(b) <==> a == b
  {
    NameIsWritten(a);
    NameIsWritten(b);
    DecodeEncode(a);
    DecodeEncode(b);
  }

  // ---------------------------------------------------------------------- method

  /** `_safe_realloc` to a larger size. */
  method Grow(out: array<u8>, size: nat) returns (grown: array<u8>)
    requires size >= out.Length
    ensures fresh(grown) && grown.Length == size && grown[..out.Length] == out[..]
  {
    grown := new u8[size](i requires 0 <= i reads out => if i < out.Length then out[i] else 0);
  }

  /** Appends one unit at outPos, growing the buffer by the bytes it takes beyond one. */
  method PutUnit(out: array<u8>, outPos: nat, ch: unit) returns (out': array<u8>, outPos': nat)
    requires outPos < out.Length
    modifies out
    ensures (out' == out || fresh(out')) && out'.Length == out.Length + |EncodeUnit(ch)| - 1
    ensures outPos' == outPos + |EncodeUnit(ch)| <= out'.Length
    ensures out'[..outPos'] == old(out[..outPos]) + EncodeUnit(ch)
  {
    out', outPos' := out, outPos;
    if ch < 0x7ff {
      if ch != 0 && ch < 0x80 {
        out'[outPos'] := ch as u8;
        outPos' := outPos' + 1;
      } else {
        out' := Grow(out, out.Length + 1);
        assert out'[..outPos] == out[..][..outPos];
        out'[outPos'] := (0xc0 + ch / 0x40) as u8;
        out'[outPos' + 1] := (0x80 + ch % 0x40) as u8;
        outPos' := outPos' + 2;
      }
    } else {
      out' := Grow(out, out.Length + 2);
      assert out'[..outPos] == out[..][..outPos];
      out'[outPos'] := (0xe0 + ch / 0x1000) as u8;
      out'[outPos' + 1] := (0x80 + ch / 0x40 % 0x40) as u8;
      out'[outPos' + 2] := (0x80 + ch % 0x40) as u8;
      outPos' := outPos' + 3;
    }
  }

  lemma Take8(done: seq<unit>, s: seq<u8>)
    requires s != []
    ensures done + Units8(s) == done + [s[0] as unit] + Units8(s[1..])
  {}

  method Convert8(cs0: seq<u8>, buf: array<u8>) returns (out: array<u8>, outPos: nat)
    requires cs0 != [] && buf.Length == |cs0|
    modifies buf
    ensures (out == buf || fresh(out)) && outPos < out.Length && out[..outPos] == Encode(Units8(cs0[1..]))
  {
    out, outPos := buf, 0;
    var i := 1;
    ghost var done: seq<unit> := [];
    while i < |cs0|
      invariant 1 <= i <= |cs0| && (out == buf || fresh(out))
      invariant outPos + (|cs0| - i) + 1 <= out.Length && out[..outPos] == Encode(done)
      invariant done + Units8(cs0[i..]) == Units8(cs0[1..])
    {
      out, outPos := PutUnit(out, outPos, cs0[i] as unit);
      EncodeAppend(done, cs0[i] as unit);
      Take8(done, cs0[i..]);
      assert cs0[i..][1..] == cs0[i + 1..];
      done := done + [cs0[i] as unit];
      i := i + 1;
    }
    assert done + [] == done;
  }

  lemma Take16(done: seq<unit>, s: seq<u8>)
    requires |s| >= 2
    ensures done + Units16(s) == done + [s[0] as unit * 0x100 + s[1] as unit] + Units16(s[2..])
  {}

  method Convert16(cs0: seq<u8>, buf: array<u8>) returns (out: array<u8>, outPos: nat)
    requires cs0 != [] && buf.Length == |cs0|
    modifies buf
    ensures (out == buf || fresh(out)) && outPos < out.Length && out[..outPos] == Encode(Units16(cs0[1..]))
  {
    out, outPos := buf, 0;
    var i := 1;
    ghost var done: seq<unit> := [];
    while i < |cs0| - 1
      invariant 1 <= i <= |cs0| && (out == buf || fresh(out))
      invariant outPos + (|cs0| - i + 1) / 2 + 1 <= out.Length && out[..outPos] == Encode(done)
      invariant done + Units16(cs0[i..]) == Units16(cs0[1..])
    {
      var ch := cs0[i + 1] as unit + cs0[i] as unit * 0x100;
      out, outPos := PutUnit(out, outPos, ch);
      EncodeAppend(done, ch);
      Take16(done, cs0[i..]);
      assert cs0[i..][2..] == cs0[i + 2..];
      done := done + [ch];
      i := i + 2;
    }
    assert done + [] == done;
  }

  /** `udf_cs0_to_mutf8`: the buffer starts with the size of the input, and every
      write, the final NUL included, stays inside what it has grown to. */
  method Cs0ToMutf8(cs0: seq<u8>) returns (r: Option<array<u8>>, len: nat)
    ensures r.Some? <==> Mutf8(cs0).Some?
    ensures r.Some? ==> fresh(r.value) && len < r.value.Length
    ensures r.Some? ==> r.value[..len] == Mutf8(cs0).value && r.value[len] == 0
    ensures r.Some? <==> cs0 == [] || cs0[0] == 8 || cs0[0] == 16
    ensures r.Some? ==> Decode(r.value[..len]) == Some(CodeUnits(cs0)) && r.value[..len] == WrittenAll(CodeUnits(cs0))
  {
    UnitsAre(cs0);
    if Units(cs0).Some? {
      DecodeEncode(Units(cs0).value);
      NameIsWritten(Units(cs0).value);
    }
    var size := |cs0|;
    if size < 1 {
      var empty := new u8[1](_ => 0);
      return Some(empty), 0;
    }
    var out := new u8[size];
    var outPos: nat := 0;
    match cs0[0] {
      case 8 => out, outPos := Convert8(cs0, out);
      case 16 => out, outPos := Convert16(cs0, out);
      case _ => return None, 0;
    }
    ghost var text := out[..outPos];
    out[outPos] := 0;
    assert out[..outPos] == text;
    return Some(out), outPos;
  }
}

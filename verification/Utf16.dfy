/** String descriptors: UTF-16LE in, UTF-8 out. */
module Utf16 {
  import opened Wire

  const REPLACEMENT: nat := 0xFFFD

  predicate High(u: uint16) { 0xD800 <= u <= 0xDBFF }
  predicate Low(u: uint16) { 0xDC00 <= u <= 0xDFFF }
  predicate Surrogate(u: uint16) { High(u) || Low(u) }

  /** A Unicode scalar value. */
  predicate Scalar(c: nat) { c < 0xD800 || 0xE000 <= c <= 0x10_FFFF }

  function Combined(high: uint16, low: uint16): (c: nat)
    requires High(high) && Low(low)
    ensures 0x1_0000 <= c <= 0x10_FFFF
  {
    0x1_0000 + (high - 0xD800) * 0x400 + (low - 0xDC00)
  }

  /** The 16-bit units of a byte string; an odd last byte is not looked at. */
  function Units(data: Bytes): seq<uint16>
    decreases |data|
  {
    if |data| < 2 then [] else [Le16(data)] + Units(data[2..])
  }

  predicate StartsPair(units: seq<uint16>) {
    |units| >= 2 && High(units[0]) && Low(units[1])
  }

  function First(units: seq<uint16>): (c: nat)
    requires units != []
    ensures Scalar(c)
  {
    if StartsPair(units) then Combined(units[0], units[1])
    else if Surrogate(units[0]) then REPLACEMENT
    else units[0]
  }

  function Width(units: seq<uint16>): nat {
    if StartsPair(units) then 2 else 1
  }

  /** The code points read off a unit sequence. */
  function CodePoints(units: seq<uint16>): (cs: seq<nat>)
    ensures |cs| <= |units|
    ensures forall i | 0 <= i < |cs| :: Scalar(cs[i])
    decreases |units|
  {
    if units == [] then [] else [First(units)] + CodePoints(units[Width(units)..])
  }

  function Utf8(c: nat): (s: Bytes)
    requires Scalar(c)
    ensures 1 <= |s| <= 4 && (c < 0x1_0000 ==> |s| <= 3)
  {
    var c6 := c / 0x40;
    var c12 := c6 / 0x40;
    var c18 := c12 / 0x40;
    if c < 0x80 then [c]
    else if c < 0x800 then [0xC0 + c6, 0x80 + c % 0x40]
    else if c < 0x1_0000 then [0xE0 + c12, 0x80 + c6 % 0x40, 0x80 + c % 0x40]
    else [0xF0 + c18, 0x80 + c12 % 0x40, 0x80 + c6 % 0x40, 0x80 + c % 0x40]
  }

  predicate AllScalar(cs: seq<nat>) {
    forall i | 0 <= i < |cs| :: Scalar(cs[i])
  }

  function Utf8All(cs: seq<nat>): Bytes
    requires AllScalar(cs)
  {
    if cs == [] then [] else Utf8(cs[0]) + Utf8All(cs[1..])
  }

  method Utf16leToUtf8(data: Bytes) returns (result: Bytes)
    ensures result == Utf8All(CodePoints(Units(data)))
  {
    hide Utf8;
    result := [];
    var i := 0;
    while i + 1 < |data|
      invariant 0 <= i <= |data|
      invariant Utf8All(CodePoints(Units(data))) == result + Utf8All(CodePoints(Units(data[i..])))
    {
      ghost var rest := data[i..];
      var unit := Le16(data[i..]);
      var codepoint: nat := unit;
      ghost var step := 2;
      UnitsAfter(rest);
      ReadsFirst(Units(rest));
      if High(unit) && i + 3 < |data| {
        var low := Le16(data[i + 2..]);
        assert rest[2..] == data[i + 2..];
        if Low(low) {
          codepoint := Combined(unit, low);
          i := i + 2;
          step := 4;
        } else {
          codepoint := REPLACEMENT;
        }
      } else if Surrogate(unit) {
        codepoint := REPLACEMENT;
      }
      assert codepoint == First(Units(rest)) && step == 2 * Width(Units(rest));
      assert rest[step..] == data[i + 2..];
      Associates(result, Utf8(codepoint), Utf8All(CodePoints(Units(rest[step..]))));
      result := result + Utf8(codepoint);
      i := i + 2;
    }
    assert Units(data[i..]) == [];
    assert result + [] == result;
  }

  lemma UnitsAfter(data: Bytes)
    requires |data| >= 2
    ensures var units := Units(data);
            && |units| == |data| / 2 && units[0] == Le16(data) && units[1..] == Units(data[2..])
            && (|data| >= 4 ==> units[1] == Le16(data[2..]) && units[2..] == Units(data[4..]))
  {
    UnitCount(data);
    if |data| >= 4 {
      assert data[2..][2..] == data[4..];
      assert Units(data) == [Le16(data)] + ([Le16(data[2..])] + Units(data[4..]));
    }
  }

  lemma {:induction false} UnitCount(data: Bytes)
    ensures |Units(data)| == |data| / 2
    decreases |data|
  {
    if |data| < 2 {
    } else {
      UnitCount(data[2..]);
    }
  }

  lemma ReadsFirst(units: seq<uint16>)
    requires units != []
    ensures Utf8All(CodePoints(units)) == Utf8(First(units)) + Utf8All(CodePoints(units[Width(units)..]))
  {
    hide Utf8;
    assert CodePoints(units)[1..] == CodePoints(units[Width(units)..]);
  }
}

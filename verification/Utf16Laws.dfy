/** The decoder against independent definitions: the UTF-8 of RFC 3629, UTF-16 printing, and unit positions. */
module Utf16Laws {
  import opened Wire
  import opened Utf16

  // ---- The output is UTF-8 (RFC 3629, sections 3 and 4) ----

  predicate Tail(b: byte) { 0x80 <= b <= 0xBF }

  /** The bits gathered so far, and six more. */
  function Push(bits: nat, tail: byte): nat
    requires Tail(tail)
  {
    bits * 0x40 + (tail as int - 0x80)
  }

  /** The character at the front of a byte sequence and its length, if there is a well-formed one. */
  function ReadUtf8(s: Bytes): (r: Option<(nat, nat)>)
    ensures r.Some? ==> 1 <= r.value.1 <= |s| && Scalar(r.value.0)
  {
    if |s| == 0 then None
    else
      var lead: nat := s[0];
      if lead < 0x80 then Some((lead, 1))
      else if |s| < 2 || !Tail(s[1]) then None
      else if 0xC2 <= lead <= 0xDF then Some((Push(lead - 0xC0, s[1]), 2))
      else if |s| < 3 || !Tail(s[2]) then None
      else if (lead == 0xE0 && s[1] >= 0xA0) || 0xE1 <= lead <= 0xEC || (lead == 0xED && s[1] < 0xA0)
          || 0xEE <= lead <= 0xEF
      then Some((Push(Push(lead - 0xE0, s[1]), s[2]), 3))
      else if |s| < 4 || !Tail(s[3]) then None
      else if (lead == 0xF0 && s[1] >= 0x90) || 0xF1 <= lead <= 0xF3 || (lead == 0xF4 && s[1] < 0x90)
      then Some((Push(Push(Push(lead - 0xF0, s[1]), s[2]), s[3]), 4))
      else None
  }

  /** The characters of a well-formed byte sequence. */
  function DecodeUtf8(s: Bytes): Option<seq<nat>>
    decreases |s|
  {
    if s == [] then Some([])
    else
      match ReadUtf8(s)
      case None => None
      case Some((c, width)) =>
        match DecodeUtf8(s[width..])
        case None => None
        case Some(cs) => Some([c] + cs)
  }

  lemma SixBits(c: nat)
    ensures var tail: byte := 0x80 + c % 0x40; Tail(tail) && Push(c / 0x40, tail) == c
  {
  }

  lemma ReadsBack(c: nat, rest: Bytes)
    requires Scalar(c)
    ensures ReadUtf8(Utf8(c) + rest) == Some((c, |Utf8(c)|))
  {
    SixBits(c);
    SixBits(c / 0x40);
    SixBits(c / 0x40 / 0x40);
    var s := Utf8(c) + rest;
    assert forall i | 0 <= i < |Utf8(c)| :: s[i] == Utf8(c)[i];
    hide Push;
  }

  lemma {:induction false} PrintedIsWellFormed(cs: seq<nat>)
    requires AllScalar(cs)
    ensures DecodeUtf8(Utf8All(cs)) == Some(cs)
    decreases |cs|
  {
    if cs == [] {
    } else {
      ReadsBack(cs[0], Utf8All(cs[1..]));
      PrintedIsWellFormed(cs[1..]);
      assert [cs[0]] + cs[1..] == cs;
      assert (Utf8(cs[0]) + Utf8All(cs[1..]))[|Utf8(cs[0])|..] == Utf8All(cs[1..]);
      hide Utf8;
      hide ReadUtf8;
    }
  }

  lemma {:induction false} OutputIsBounded(units: seq<uint16>)
    ensures |Utf8All(CodePoints(units))| <= 3 * |units|
    decreases |units|
  {
    hide Utf8;
    if units == [] {
    } else {
      ReadsFirst(units);
      OutputIsBounded(units[Width(units)..]);
    }
  }

  /** Every descriptor string becomes well-formed UTF-8 of at most three bytes a unit. */
  lemma OutputIsUtf8(data: Bytes)
    ensures var out := Utf8All(CodePoints(Units(data)));
            && DecodeUtf8(out) == Some(CodePoints(Units(data)))
            && |out| <= 3 * (|data| / 2)
  {
    PrintedIsWellFormed(CodePoints(Units(data)));
    OutputIsBounded(Units(data));
    UnitCount(data);
  }

  // ---- Well-formed input keeps its code points (RFC 2781, section 2) ----

  function PutUtf16(c: nat): (u: seq<uint16>)
    requires Scalar(c)
  {
    if c < 0x1_0000 then [c]
    else [0xD800 + (c - 0x1_0000) / 0x400, 0xDC00 + (c - 0x1_0000) % 0x400]
  }

  function PutUtf16All(cs: seq<nat>): seq<uint16>
    requires AllScalar(cs)
  {
    if cs == [] then [] else PutUtf16(cs[0]) + PutUtf16All(cs[1..])
  }

  function PutUnits(units: seq<uint16>): Bytes {
    if units == [] then [] else PutLe16(units[0]) + PutUnits(units[1..])
  }

  lemma {:induction false} UnitsOfPut(units: seq<uint16>)
    ensures Units(PutUnits(units)) == units
    decreases |units|
  {
    if units == [] {
    } else {
      UnitsOfPut(units[1..]);
      var s := PutUnits(units);
      assert s[..2] == PutLe16(units[0]) && s[2..] == PutUnits(units[1..]);
      Le16OfPut(units[0]);
      assert Le16(s) == Le16(s[..2]);
    }
  }

  lemma FirstOfPrinted(c: nat, rest: seq<uint16>)
    requires Scalar(c)
    ensures var units := PutUtf16(c) + rest;
            First(units) == c && Width(units) == |PutUtf16(c)| && units[Width(units)..] == rest
  {
  }

  lemma {:induction false} CodePointsOfPrinted(cs: seq<nat>)
    requires AllScalar(cs)
    ensures CodePoints(PutUtf16All(cs)) == cs
    decreases |cs|
  {
    if cs == [] {
    } else {
      FirstOfPrinted(cs[0], PutUtf16All(cs[1..]));
      CodePointsOfPrinted(cs[1..]);
      hide PutUtf16;
      hide First;
      hide Width;
    }
  }

  /** Text that was well formed is the same text afterwards. */
  lemma TextIsKept(cs: seq<nat>)
    requires AllScalar(cs)
    ensures DecodeUtf8(Utf8All(CodePoints(Units(PutUnits(PutUtf16All(cs)))))) == Some(cs)
  {
    UnitsOfPut(PutUtf16All(cs));
    CodePointsOfPrinted(cs);
    PrintedIsWellFormed(cs);
  }

  // ---- What becomes of each unit ----

  /** The second half of a surrogate pair. */
  predicate Second(units: seq<uint16>, i: nat)
    requires i < |units|
  {
    i > 0 && High(units[i - 1]) && Low(units[i])
  }

  /** A surrogate without its other half. */
  predicate Unpaired(units: seq<uint16>, i: nat)
    requires i < |units|
  {
    Surrogate(units[i]) && !Second(units, i) && !(High(units[i]) && i + 1 < |units| && Low(units[i + 1]))
  }

  function ValueAt(units: seq<uint16>, i: nat): nat
    requires i < |units|
  {
    if Unpaired(units, i) then 0xFFFD
    else if High(units[i]) && i + 1 < |units| && Low(units[i + 1]) then Combined(units[i], units[i + 1])
    else units[i]
  }

  /** Where each code point starts. */
  function Starts(units: seq<uint16>, from: nat): seq<nat>
    decreases |units|
  {
    if units == [] then [] else [from] + Starts(units[Width(units)..], from + Width(units))
  }

  /** Code points start, in order, at exactly the units that are not second halves, and each is its units' value. */
  ghost predicate Aligned(units: seq<uint16>, starts: seq<nat>, cs: seq<nat>) {
    && |starts| == |cs|
    && (forall k | 0 <= k < |starts| ::
          starts[k] < |units| && !Second(units, starts[k]) && cs[k] == ValueAt(units, starts[k]))
    && (forall j, k | 0 <= j < k < |starts| :: starts[j] < starts[k])
    && (forall i | 0 <= i < |units| && !Second(units, i) :: i in starts)
  }

  /** The same from some unit on. */
  ghost predicate AlignedAfter(units: seq<uint16>, from: nat, starts: seq<nat>, cs: seq<nat>) {
    && |starts| == |cs|
    && (forall k | 0 <= k < |starts| ::
          from <= starts[k] < |units| && !Second(units, starts[k]) && cs[k] == ValueAt(units, starts[k]))
    && (forall j, k | 0 <= j < k < |starts| :: starts[j] < starts[k])
    && (forall i | from <= i < |units| && !Second(units, i) :: i in starts)
  }

  lemma AlignedOneMore(units: seq<uint16>, from: nat, next: nat, starts: seq<nat>, cs: seq<nat>, c: nat)
    requires AlignedAfter(units, next, starts, cs)
    requires from < next <= |units| && !Second(units, from) && c == ValueAt(units, from)
    requires forall i | from < i < next :: Second(units, i)
    ensures AlignedAfter(units, from, [from] + starts, [c] + cs)
  {
    hide Second;
    hide ValueAt;
    var s := [from] + starts;
    forall i | from <= i < |units| && !Second(units, i)
      ensures i in s
    {
      if i == from { assert s[0] == i; }
      else { var k :| 0 <= k < |starts| && starts[k] == i; assert s[k + 1] == i; }
    }
  }

  lemma {:induction false} AlignedFrom(units: seq<uint16>, from: nat)
    requires from <= |units| && (from < |units| ==> !Second(units, from))
    ensures AlignedAfter(units, from, Starts(units[from..], from), CodePoints(units[from..]))
    decreases |units| - from
  {
    if from == |units| {
    } else {
      var rest := units[from..];
      var next := from + Width(rest);
      assert units[next..] == rest[Width(rest)..];
      AlignedFrom(units, next);
      AlignedOneMore(units, from, next, Starts(units[next..], next), CodePoints(units[next..]), First(rest));
    }
  }

  /** Each unpaired surrogate becomes exactly one replacement character, each pair one character, and every other
      unit itself. */
  lemma UnitsBecomeCodePoints(units: seq<uint16>)
    ensures Aligned(units, Starts(units, 0), CodePoints(units))
  {
    assert units[0..] == units;
    AlignedFrom(units, 0);
  }
}

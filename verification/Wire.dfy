/** Bytes as they appear in a capture, and the fixed-width integers read from them. */
module Wire {

  type byte = x: int | 0 <= x < 0x100
  type uint16 = x: int | 0 <= x < 0x1_0000
  type uint32 = x: int | 0 <= x < 0x1_0000_0000
  type uint64 = x: int | 0 <= x < 0x1_0000_0000_0000_0000

  type Bytes = seq<byte>

  datatype Option<+T> = None | Some(value: T)

  function Min(a: nat, b: nat): (m: nat)
    ensures m <= a && m <= b && (m == a || m == b)
  {
    if a <= b then a else b
  }

  /** The number that digits make behind those above them, the most significant one first. */
  function Number(digits: Bytes, above: nat): nat
    decreases |digits|
  {
    if digits == [] then above else Number(digits[1..], above * 0x100 + digits[0])
  }

  lemma TwoDigits(a: byte, b: byte, above: nat)
    ensures Number([a, b], above) == (above * 0x100 + a) * 0x100 + b
  {
    assert [a, b][1..] == [b];
    var low: Bytes := [b];
    assert low[1..] == [];
    assert Number(low, above * 0x100 + a) == Number(low[1..], (above * 0x100 + a) * 0x100 + b);
  }

  lemma FourDigits(a: byte, b: byte, c: byte, d: byte, above: nat)
    ensures Number([a, b, c, d], above) == (((above * 0x100 + a) * 0x100 + b) * 0x100 + c) * 0x100 + d
  {
    assert [a, b, c, d][1..][1..] == [c, d];
    TwoDigits(c, d, (above * 0x100 + a) * 0x100 + b);
  }

  lemma EightDigits(a: byte, b: byte, c: byte, d: byte, e: byte, f: byte, g: byte, h: byte)
    ensures Number([a, b, c, d, e, f, g, h], 0)
         == Number([a, b, c, d], 0) * 0x1_0000_0000 + Number([e, f, g, h], 0)
  {
    var high, low := [c, d, e, f, g, h], [e, f, g, h];
    var two: nat := a as int * 0x100 + b;
    assert [a, b, c, d, e, f, g, h][1..][1..] == high && high[1..][1..] == low;
    assert Number([a, b] + high, 0) == Number(high, two);
    var four: nat := (two * 0x100 + c) * 0x100 + d;
    assert Number(high, two) == Number(low, four);
    FourDigits(a, b, c, d, 0);
    FourDigits(e, f, g, h, four);
    FourDigits(e, f, g, h, 0);
    hide Number;
  }

  // Big endian fields (usbmux, TCP and length prefixes)

  function Be16(s: Bytes): uint16
    requires |s| >= 2
  {
    TwoDigits(s[0], s[1], 0);
    Number([s[0], s[1]], 0)
  }

  function Be32(s: Bytes): uint32
    requires |s| >= 4
  {
    FourDigits(s[0], s[1], s[2], s[3], 0);
    Number([s[0], s[1], s[2], s[3]], 0)
  }

  /** The low bytes of a number, the most significant one first. */
  function BigEndian(v: nat, n: nat): (s: Bytes)
    ensures |s| == n
  {
    if n == 0 then [] else BigEndian(v / 0x100, n - 1) + [v % 0x100]
  }

  function PutBe16(v: uint16): (s: Bytes)
    ensures |s| == 2
  {
    BigEndian(v, 2)
  }

  function PutBe32(v: uint32): (s: Bytes)
    ensures |s| == 4
  {
    BigEndian(v, 4)
  }

  // Little endian fields (USB descriptors, captures)

  function Le16(s: Bytes): uint16
    requires |s| >= 2
  {
    TwoDigits(s[1], s[0], 0);
    Number([s[1], s[0]], 0)
  }

  function Le32(s: Bytes): uint32
    requires |s| >= 4
  {
    FourDigits(s[3], s[2], s[1], s[0], 0);
    Number([s[3], s[2], s[1], s[0]], 0)
  }

  function Le64(s: Bytes): uint64
    requires |s| >= 8
  {
    EightDigits(s[7], s[6], s[5], s[4], s[3], s[2], s[1], s[0]);
    FourDigits(s[7], s[6], s[5], s[4], 0);
    FourDigits(s[3], s[2], s[1], s[0], 0);
    Number([s[7], s[6], s[5], s[4], s[3], s[2], s[1], s[0]], 0)
  }

  /** The low bytes of a number, the least significant one first. */
  function LittleEndian(v: nat, n: nat): (s: Bytes)
    ensures |s| == n
  {
    if n == 0 then [] else [v % 0x100] + LittleEndian(v / 0x100, n - 1)
  }

  function PutLe16(v: uint16): (s: Bytes)
    ensures |s| == 2
  {
    LittleEndian(v, 2)
  }

  function PutLe32(v: uint32): (s: Bytes)
    ensures |s| == 4
  {
    LittleEndian(v, 4)
  }

  function PutLe64(v: uint64): (s: Bytes)
    ensures |s| == 8
  {
    PutLe32(v % 0x1_0000_0000) + PutLe32(v / 0x1_0000_0000)
  }

  function Zeros(n: nat): (z: Bytes)
    ensures |z| == n
  {
    if n == 0 then [] else [0] + Zeros(n - 1)
  }

  // Printed fields are read back

  lemma DigitsOf(v: uint32)
    ensures var v1 := v / 0x100; var v2 := v1 / 0x100; var v3 := v2 / 0x100;
            && v3 < 0x100 && v1 / 0x100 == v2 && v2 / 0x100 == v3
            && v % 0x100 + v1 % 0x100 * 0x100 + v2 % 0x100 * 0x1_0000 + v3 * 0x100_0000 == v
  {
  }

  lemma {:induction false} BigEndianDigits(v: nat)
    ensures BigEndian(v, 4) == [v / 0x100 / 0x100 / 0x100 % 0x100, v / 0x100 / 0x100 % 0x100, v / 0x100 % 0x100,
        v % 0x100]
    ensures BigEndian(v, 2) == [v / 0x100 % 0x100, v % 0x100]
  {
    var v1 := v / 0x100;
    var v2 := v1 / 0x100;
    var v3 := v2 / 0x100;
    assert BigEndian(v3, 1) == BigEndian(v3 / 0x100, 0) + [v3 % 0x100] == [v3 % 0x100];
    assert BigEndian(v1, 1) == BigEndian(v1 / 0x100, 0) + [v1 % 0x100] == [v1 % 0x100];
    assert BigEndian(v2, 2) == BigEndian(v3, 1) + [v2 % 0x100];
    assert BigEndian(v1, 3) == BigEndian(v2, 2) + [v1 % 0x100];
  }

  lemma {:induction false} LittleEndianDigits(v: nat)
    ensures LittleEndian(v, 4)
        == [v % 0x100, v / 0x100 % 0x100, v / 0x100 / 0x100 % 0x100, v / 0x100 / 0x100 / 0x100 % 0x100]
    ensures LittleEndian(v, 2) == [v % 0x100, v / 0x100 % 0x100]
  {
    var v1 := v / 0x100;
    var v2 := v1 / 0x100;
    var v3 := v2 / 0x100;
    assert LittleEndian(v3, 1) == [v3 % 0x100] + LittleEndian(v3 / 0x100, 0) == [v3 % 0x100];
    assert LittleEndian(v1, 1) == [v1 % 0x100] + LittleEndian(v1 / 0x100, 0) == [v1 % 0x100];
    assert LittleEndian(v2, 2) == [v2 % 0x100] + LittleEndian(v3, 1);
    assert LittleEndian(v1, 3) == [v1 % 0x100] + LittleEndian(v2, 2);
  }

  lemma Be16OfPut(v: uint16)
    ensures Be16(PutBe16(v)) == v
  {
    hide BigEndian;
    hide Number;
    BigEndianDigits(v);
    TwoDigits(v / 0x100 % 0x100, v % 0x100, 0);
  }

  lemma Be32Is(s: Bytes)
    requires |s| >= 4
    ensures Be32(s) == s[3] + s[2] as int * 0x100 + s[1] as int * 0x1_0000 + s[0] as int * 0x100_0000
  {
    FourDigits(s[0], s[1], s[2], s[3], 0);
    hide Number;
  }

  lemma Be32OfDigits(a: byte, b: byte, c: byte, d: byte)
    ensures Be32([a, b, c, d]) == d + c as int * 0x100 + b as int * 0x1_0000 + a as int * 0x100_0000
  {
    Be32Is([a, b, c, d]);
    hide Be32;
  }

  lemma Le32OfDigits(a: byte, b: byte, c: byte, d: byte)
    ensures Le32([a, b, c, d]) == a + b as int * 0x100 + c as int * 0x1_0000 + d as int * 0x100_0000
  {
    FourDigits(d, c, b, a, 0);
    hide Number;
  }

  lemma Be32OfPut(v: uint32)
    ensures Be32(PutBe32(v)) == v
  {
    hide BigEndian;
    hide Be32;
    var v1 := v / 0x100;
    var v2 := v1 / 0x100;
    var v3 := v2 / 0x100;
    BigEndianDigits(v);
    DigitsOf(v);
    Be32OfDigits(v3, v2 % 0x100, v1 % 0x100, v % 0x100);
  }

  lemma Le16OfPut(v: uint16)
    ensures Le16(PutLe16(v)) == v
  {
    hide LittleEndian;
    hide Number;
    LittleEndianDigits(v);
    TwoDigits(v / 0x100 % 0x100, v % 0x100, 0);
  }

  lemma Le32OfPut(v: uint32)
    ensures Le32(PutLe32(v)) == v
  {
    hide LittleEndian;
    hide Le32;
    var v1 := v / 0x100;
    var v2 := v1 / 0x100;
    var v3 := v2 / 0x100;
    LittleEndianDigits(v);
    DigitsOf(v);
    Le32OfDigits(v % 0x100, v1 % 0x100, v2 % 0x100, v3);
  }

  lemma Le64OfHalves(s: Bytes)
    requires |s| >= 8
    ensures Le64(s) == Le32(s[..4]) + Le32(s[4..8]) * 0x1_0000_0000
  {
    EightDigits(s[7], s[6], s[5], s[4], s[3], s[2], s[1], s[0]);
    hide Number;
  }

  lemma Le64OfPut(v: uint64)
    ensures Le64(PutLe64(v)) == v
  {
    hide Le64;
    var low, high := v % 0x1_0000_0000, v / 0x1_0000_0000;
    Le64OfHalves(PutLe64(v));
    Le32OfPut(low);
    Le32OfPut(high);
    hide Le32;
    hide PutLe32;
    assert PutLe64(v)[..4] == PutLe32(low) && PutLe64(v)[4..8] == PutLe32(high);
  }

  /** The next field of a byte string, and what follows it. */
  lemma Next(w: Bytes, at: nat, field: Bytes, rest: Bytes)
    requires at <= |w| && w[at..] == field + rest
    ensures at + |field| <= |w| && w[at + |field|..] == rest
    ensures forall i | 0 <= i < |field| :: w[at + i] == field[i]
  {
    assert w[at + |field|..] == w[at..][|field|..];
    forall i | 0 <= i < |field|
      ensures w[at + i] == field[i]
    {
      assert w[at..][i] == w[at + i];
    }
  }

  lemma Le16Of(v: uint16, rest: Bytes)
    ensures Le16(PutLe16(v) + rest) == v
  {
    hide Le16;
    hide PutLe16;
    Le16OfPut(v);
    Le16Prefix(PutLe16(v) + rest);
    assert (PutLe16(v) + rest)[..2] == PutLe16(v);
  }

  lemma Le32Of(v: uint32, rest: Bytes)
    ensures Le32(PutLe32(v) + rest) == v
  {
    hide Le32;
    hide PutLe32;
    Le32OfPut(v);
    Le32Prefix(PutLe32(v) + rest);
    assert (PutLe32(v) + rest)[..4] == PutLe32(v);
  }

  lemma Le64Of(v: uint64, rest: Bytes)
    ensures Le64(PutLe64(v) + rest) == v
  {
    hide Le64;
    hide PutLe64;
    Le64OfPut(v);
    Le64Prefix(PutLe64(v) + rest);
    assert (PutLe64(v) + rest)[..8] == PutLe64(v);
  }

  lemma Le16Prefix(s: Bytes)
    requires |s| >= 2
    ensures Le16(s) == Le16(s[..2])
  {
  }

  lemma Le32Prefix(s: Bytes)
    requires |s| >= 4
    ensures Le32(s) == Le32(s[..4])
  {
  }

  lemma Le64Prefix(s: Bytes)
    requires |s| >= 8
    ensures Le64(s) == Le64(s[..8])
  {
    assert s[..8][..4] == s[..4] && s[..8][4..8] == s[4..8];
  }

  lemma Be16Prefix(s: Bytes)
    requires |s| >= 2
    ensures Be16(s) == Be16(s[..2])
  {
  }

  lemma Be16Of(v: uint16, rest: Bytes)
    ensures Be16(PutBe16(v) + rest) == v
  {
    hide Be16;
    hide PutBe16;
    Be16OfPut(v);
    Be16Prefix(PutBe16(v) + rest);
    assert (PutBe16(v) + rest)[..2] == PutBe16(v);
  }

  lemma Be32Of(v: uint32, rest: Bytes)
    ensures Be32(PutBe32(v) + rest) == v
  {
    hide Be32;
    hide PutBe32;
    Be32OfPut(v);
    Be32Prefix(PutBe32(v) + rest);
    assert (PutBe32(v) + rest)[..4] == PutBe32(v);
  }

  lemma Be32Prefix(s: Bytes)
    requires |s| >= 4
    ensures Be32(s) == Be32(s[..4])
  {
  }

  lemma LastDigit(high: nat, low: byte)
    ensures (high * 0x100 + low) / 0x100 == high && (high * 0x100 + low) % 0x100 == low
  {
  }

  lemma PutBe32OfBe32(s: Bytes)
    requires |s| == 4
    ensures PutBe32(Be32(s)) == s
  {
    hide BigEndian;
    hide Number;
    var first: nat := s[0];
    var two := first * 0x100 + s[1];
    var three := two * 0x100 + s[2];
    FourDigits(s[0], s[1], s[2], s[3], 0);
    LastDigit(three, s[3]);
    LastDigit(two, s[2]);
    LastDigit(first, s[1]);
    BigEndianDigits(three * 0x100 + s[3]);
  }

  lemma PutLe32OfLe32(s: Bytes)
    requires |s| == 4
    ensures PutLe32(Le32(s)) == s
  {
    hide LittleEndian;
    hide Number;
    var first: nat := s[3];
    var two := first * 0x100 + s[2];
    var three := two * 0x100 + s[1];
    FourDigits(s[3], s[2], s[1], s[0], 0);
    LastDigit(three, s[0]);
    LastDigit(two, s[1]);
    LastDigit(first, s[2]);
    LittleEndianDigits(three * 0x100 + s[0]);
  }

  /** The concatenation of a list of pieces. */
  function Flat<T>(parts: seq<seq<T>>): seq<T> {
    if parts == [] then [] else parts[0] + Flat(parts[1..])
  }

  lemma {:induction false} FlatAppend<T>(a: seq<seq<T>>, b: seq<seq<T>>)
    ensures Flat(a + b) == Flat(a) + Flat(b)
  {
    if a == [] {
      assert a + b == b;
    } else {
      assert (a + b)[1..] == a[1..] + b;
      FlatAppend(a[1..], b);
    }
  }

  lemma FlatOfLast<T>(parts: seq<seq<T>>, last: seq<T>)
    ensures Flat(parts + [last]) == Flat(parts) + last
  {
    FlatAppend(parts, [last]);
    assert [last][1..] == [];
    assert Flat([last]) == last + Flat([last][1..]) == last;
  }

  lemma Associates<T>(a: seq<T>, b: seq<T>, c: seq<T>)
    ensures a + (b + c) == a + b + c
  {
  }

  lemma DropExtends<T>(a: seq<T>, b: seq<T>, n: nat)
    requires n <= |a|
    ensures (a + b)[n..] == a[n..] + b
  {
  }

  lemma TakeDrop<T>(s: seq<T>, k: nat, n: nat)
    requires k <= n <= |s|
    ensures s[..n][k..] == s[k..][..n - k]
  {
  }

  lemma DropTwice<T>(s: seq<T>, a: nat, b: nat)
    requires a + b <= |s|
    ensures s[a..][b..] == s[a + b..]
  {
  }

  lemma FlatPair<T>(a: seq<T>, b: seq<T>)
    ensures Flat([a, b]) == a + b
  {
    assert [a, b][1..] == [b];
    assert Flat([b]) == b + Flat([b][1..]) == b;
  }
}

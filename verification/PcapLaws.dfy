/** Truncated pcap files deliver a prefix, printed ones are read back, and the container makes no difference. */
module PcapLaws {
  import opened Wire
  import opened Records
  import opened Pcap

  // ---- Truncation ----

  lemma FieldExtends(a: Bytes, b: Bytes, at: nat, swapped: bool)
    requires at + 4 <= |a|
    ensures Field((a + b)[at..], swapped) == Field(a[at..], swapped)
  {
    assert forall i | 0 <= i < 4 :: (a + b)[at..][i] == a[at..][i];
  }

  /** The records that lie wholly within the first bytes. */
  function Contained(rest: Bytes, n: nat, swapped: bool, linktype: uint32): seq<Item>
    decreases |rest|
  {
    var included := Included(rest, swapped);
    if included.None? || RECORD_HEADER + included.value > n then []
    else
      var end := RECORD_HEADER + included.value;
      [Deliver(linktype, rest[RECORD_HEADER..end])] + Contained(rest[end..], n - end, swapped, linktype)
  }

  lemma CutRecord(rest: Bytes, n: nat, swapped: bool)
    requires n <= |rest|
    ensures Included(rest[..n], swapped)
         == if Included(rest, swapped).Some? && RECORD_HEADER + Included(rest, swapped).value <= n
             then Included(rest, swapped)
            else None
  {
    if n >= RECORD_HEADER {
      assert rest[..n] + rest[n..] == rest;
      FieldExtends(rest[..n], rest[n..], 8, swapped);
    }
    hide Field;
  }

  lemma {:induction false} ContainedIsPrefix(rest: Bytes, n: nat, swapped: bool, linktype: uint32)
    ensures Contained(rest, n, swapped, linktype) <= Walk(rest, swapped, linktype)
    decreases |rest|
  {
    var included := Included(rest, swapped);
    hide Included;
    if included.None? || RECORD_HEADER + included.value > n {
    } else {
      var end := RECORD_HEADER + included.value;
      ContainedIsPrefix(rest[end..], n - end, swapped, linktype);
    }
  }

  lemma CutEnds(rest: Bytes, n: nat, swapped: bool, linktype: uint32)
    requires n <= |rest| && Included(rest[..n], swapped).None?
    ensures Delivered(Walk(rest[..n], swapped, linktype)) == Contained(rest, n, swapped, linktype) == []
  {
    CutRecord(rest, n, swapped);
    hide Included;
    if n > 0 {
      assert Walk(rest[..n], swapped, linktype) == [Complain];
      assert Delivered([Complain]) == [];
    }
  }

  lemma TurnDelivers(linktype: uint32, data: Bytes, more: seq<Item>)
    ensures Delivered([Deliver(linktype, data)] + more) == [Deliver(linktype, data)] + Delivered(more)
  {
    var one := Deliver(linktype, data);
    assert ([one] + more)[0] == one && ([one] + more)[1..] == more;
  }

  lemma WalkTurn(rest: Bytes, swapped: bool, linktype: uint32)
    requires Included(rest, swapped).Some?
    ensures var end := RECORD_HEADER + Included(rest, swapped).value;
            Walk(rest, swapped, linktype) == [Deliver(linktype, rest[RECORD_HEADER..end])]
                + Walk(rest[end..], swapped, linktype)
  {
    hide Included;
    assert |rest| >= RECORD_HEADER;
  }

  lemma ContainedTurn(rest: Bytes, n: nat, swapped: bool, linktype: uint32)
    requires Included(rest, swapped).Some? && RECORD_HEADER + Included(rest, swapped).value <= n
    ensures var end := RECORD_HEADER + Included(rest, swapped).value;
            Contained(rest, n, swapped, linktype)
            == [Deliver(linktype, rest[RECORD_HEADER..end])] + Contained(rest[end..], n - end, swapped, linktype)
  {
    hide Included;
  }

  lemma CutKeeps(rest: Bytes, n: nat, end: nat)
    requires RECORD_HEADER <= end <= n <= |rest|
    ensures rest[..n][RECORD_HEADER..end] == rest[RECORD_HEADER..end] && rest[..n][end..] == rest[end..][..n - end]
  {
  }

  /** A truncated file delivers exactly the records left whole. */
  lemma {:induction false} TruncationKeepsWholeRecords(rest: Bytes, n: nat, swapped: bool, linktype: uint32)
    requires n <= |rest|
    ensures Delivered(Walk(rest[..n], swapped, linktype)) == Contained(rest, n, swapped, linktype)
    decreases |rest|
  {
    hide Delivered;
    hide Walk;
    hide Contained;
    var cut := rest[..n];
    if Included(cut, swapped).None? {
      CutEnds(rest, n, swapped, linktype);
    } else {
      var end := RECORD_HEADER + Included(cut, swapped).value;
      CutRecord(rest, n, swapped);
      CutKeeps(rest, n, end);
      hide Included;
      WalkTurn(cut, swapped, linktype);
      ContainedTurn(rest, n, swapped, linktype);
      TruncationKeepsWholeRecords(rest[end..], n - end, swapped, linktype);
      TurnDelivers(linktype, rest[RECORD_HEADER..end], Walk(cut[end..], swapped, linktype));
    }
  }

  lemma HeaderSurvives(data: Bytes, n: nat)
    requires FILE_HEADER <= n <= |data|
    ensures Le32(data[..n]) == Le32(data)
    ensures forall swapped :: Field(data[..n][20..], swapped) == Field(data[20..], swapped)
    ensures data[..n][FILE_HEADER..] == data[FILE_HEADER..][..n - FILE_HEADER]
  {
    assert data[..n] + data[n..] == data;
    FieldExtends(data[..n], data[n..], 20, false);
    FieldExtends(data[..n], data[n..], 20, true);
    hide Field;
  }

  lemma TruncatedWalkIsPrefix(rest: Bytes, n: nat, swapped: bool, linktype: uint32)
    requires n <= |rest|
    ensures Delivered(Walk(rest[..n], swapped, linktype)) <= Delivered(Walk(rest, swapped, linktype))
  {
    hide Walk;
    hide Contained;
    TruncationKeepsWholeRecords(rest, n, swapped, linktype);
    TruncationKeepsWholeRecords(rest, |rest|, swapped, linktype);
    assert rest[..|rest|] == rest;
    ContainedGrows(rest, n, |rest|, swapped, linktype);
  }

  lemma {:induction false} ContainedGrows(rest: Bytes, n: nat, m: nat, swapped: bool, linktype: uint32)
    requires n <= m
    ensures Contained(rest, n, swapped, linktype) <= Contained(rest, m, swapped, linktype)
    decreases |rest|
  {
    var included := Included(rest, swapped);
    hide Included;
    if included.None? || RECORD_HEADER + included.value > n {
    } else {
      var end := RECORD_HEADER + included.value;
      ContainedGrows(rest[end..], n - end, m - end, swapped, linktype);
    }
  }

  /** Whatever a truncated file delivers, the whole file delivers first. */
  lemma TruncationIsPrefix(data: Bytes, n: nat)
    requires n <= |data|
    ensures Delivered(File(data[..n]).items) <= Delivered(File(data).items)
  {
    hide Walk;
    hide Field;
    hide Le32;
    if n >= FILE_HEADER {
      HeaderSurvives(data, n);
      var swapped := Order(Le32(data));
      if swapped.Some? {
        TruncatedWalkIsPrefix(data[FILE_HEADER..], n - FILE_HEADER, swapped.value,
            Field(data[20..], swapped.value) % 0x1000_0000);
      }
      hide Order;
      hide Delivered;
    }
  }

  // ---- Printing ----

  function PutField(v: uint32, swapped: bool): (s: Bytes)
    ensures |s| == 4
  {
    if swapped then PutBe32(v) else PutLe32(v)
  }

  function PutHalf(v: uint16, swapped: bool): (s: Bytes)
    ensures |s| == 2
  {
    if swapped then PutBe16(v) else PutLe16(v)
  }

  function Magic(nanoseconds: bool): uint32 { if nanoseconds then 0xA1B23C4D else 0xA1B2C3D4 }

  /** The link type field has the link type in its low 28 bits. */
  function FileHeader(field: uint32, swapped: bool, nanoseconds: bool): (s: Bytes)
    ensures |s| == 24
  {
    PutField(Magic(nanoseconds), swapped)
    + (PutHalf(2, swapped) + PutHalf(4, swapped) + Zeros(8) + PutField(0x40000, swapped)
        + PutField(field, swapped))
  }

  /** A packet as captured, when, and of which length on the bus. */
  datatype Record = Record(seconds: uint32, fraction: uint32, original: uint32, data: Bytes)

  function PrintRecord(r: Record, swapped: bool): (s: Bytes)
    requires |r.data| < 0x1_0000_0000
    ensures |s| == 16 + |r.data|
  {
    PutField(r.seconds, swapped) + (PutField(r.fraction, swapped)
    + (PutField(|r.data|, swapped) + (PutField(r.original, swapped) + r.data)))
  }

  predicate AllFit(records: seq<Record>) {
    forall i | 0 <= i < |records| :: |records[i].data| < 0x1_0000_0000
  }

  function PrintRecords(records: seq<Record>, swapped: bool): Bytes
    requires AllFit(records)
  {
    if records == [] then [] else PrintRecord(records[0], swapped) + PrintRecords(records[1..], swapped)
  }

  /** Records, and what there may be of another one behind them. */
  function PrintFile(field: uint32, records: seq<Record>, tail: Bytes, swapped: bool, nanoseconds: bool): Bytes
    requires AllFit(records)
  {
    FileHeader(field, swapped, nanoseconds) + (PrintRecords(records, swapped) + tail)
  }

  /** No whole record. */
  predicate Incomplete(tail: Bytes, swapped: bool) {
    |tail| < 16 || Field(tail[8..], swapped) > |tail| - 16
  }

  function Contents(records: seq<Record>): seq<Bytes> {
    if records == [] then [] else [records[0].data] + Contents(records[1..])
  }

  /** The packets, all of one link type. */
  function Items(linktype: uint32, packets: seq<Bytes>): seq<Item> {
    if packets == [] then [] else [Deliver(linktype, packets[0])] + Items(linktype, packets[1..])
  }

  lemma FieldOf(v: uint32, swapped: bool, rest: Bytes)
    ensures Field(PutField(v, swapped) + rest, swapped) == v
  {
    hide PutBe32;
    hide PutLe32;
    hide Be32;
    hide Le32;
    if swapped { Be32Of(v, rest); } else { Le32Of(v, rest); }
  }

  lemma SwappedConstants()
    ensures Le32(PutBe32(0xA1B2C3D4)) == MICROSECONDS_SWAPPED && Le32(PutBe32(0xA1B23C4D)) == NANOSECONDS_SWAPPED
  {
    hide Be32;
    hide Le32;
    hide PutBe32;
    Be32OfDigits(0xA1, 0xB2, 0xC3, 0xD4);
    Be32OfDigits(0xA1, 0xB2, 0x3C, 0x4D);
    PutBe32OfBe32([0xA1, 0xB2, 0xC3, 0xD4]);
    PutBe32OfBe32([0xA1, 0xB2, 0x3C, 0x4D]);
    Le32OfDigits(0xA1, 0xB2, 0xC3, 0xD4);
    Le32OfDigits(0xA1, 0xB2, 0x3C, 0x4D);
  }

  /** The magic number in the other order tells that order. */
  lemma SwappedMagic(nanoseconds: bool, rest: Bytes)
    ensures Order(Le32(PutBe32(Magic(nanoseconds)) + rest)) == Some(true)
  {
    hide Le32;
    hide PutBe32;
    SwappedConstants();
    var printed := PutBe32(Magic(nanoseconds));
    assert (printed + rest)[..4] == printed;
    Le32Prefix(printed + rest);
  }

  lemma FileHeaderIs(field: uint32, swapped: bool, nanoseconds: bool, rest: Bytes)
    ensures FileHeader(field, swapped, nanoseconds) + rest
         == PutField(Magic(nanoseconds), swapped)
            + ((PutHalf(2, swapped) + PutHalf(4, swapped) + Zeros(8) + PutField(0x40000, swapped))
               + (PutField(field, swapped) + rest))
  {
    hide Zeros;
    hide PutHalf;
    hide PutField;
  }

  lemma HeaderIsRead(field: uint32, swapped: bool, nanoseconds: bool, rest: Bytes)
    ensures var w := FileHeader(field, swapped, nanoseconds) + rest;
            && Order(Le32(w)) == Some(swapped) && Field(w[20..], swapped) == field && w[24..] == rest
  {
    hide Le32;
    hide Field;
    var magic := Magic(nanoseconds);
    var middle := PutHalf(2, swapped) + PutHalf(4, swapped) + Zeros(8) + PutField(0x40000, swapped);
    var tail := PutField(field, swapped) + rest;
    var w := FileHeader(field, swapped, nanoseconds) + rest;
    hide Zeros;
    hide PutHalf;
    hide PutBe32;
    hide PutLe32;
    FileHeaderIs(field, swapped, nanoseconds, rest);
    hide FileHeader;
    if swapped { SwappedMagic(nanoseconds, middle + tail); } else { Le32Of(magic, middle + tail); }
    hide PutField;
    assert w[0..] == w;
    Next(w, 0, PutField(magic, swapped), middle + tail);
    Next(w, 4, middle, tail);
    Next(w, 20, PutField(field, swapped), rest);
    FieldOf(field, swapped, rest);
  }

  lemma RecordIsRead(r: Record, swapped: bool, rest: Bytes)
    requires |r.data| < 0x1_0000_0000
    ensures var w, n := PrintRecord(r, swapped) + rest, |r.data|;
            Included(w, swapped) == Some(n) && w[16..16 + n] == r.data && w[16 + n..] == rest
  {
    hide Field;
    hide PutField;
    var w, n := PrintRecord(r, swapped) + rest, |r.data|;
    var r12 := PutField(r.original, swapped) + (r.data + rest);
    var r8 := PutField(n, swapped) + r12;
    var r4 := PutField(r.fraction, swapped) + r8;
    assert w == PutField(r.seconds, swapped) + r4;
    hide PrintRecord;
    assert w[0..] == w;
    Next(w, 0, PutField(r.seconds, swapped), r4);
    Next(w, 4, PutField(r.fraction, swapped), r8);
    Next(w, 8, PutField(n, swapped), r12);
    Next(w, 12, PutField(r.original, swapped), r.data + rest);
    Next(w, 16, r.data, rest);
    FieldOf(n, swapped, r12);
    assert w[16..16 + n] == r.data;
  }

  lemma TailIsComplained(tail: Bytes, swapped: bool, linktype: uint32)
    requires Incomplete(tail, swapped)
    ensures Walk(tail, swapped, linktype) == if tail == [] then [] else [Complain]
  {
    hide Field;
  }

  lemma {:induction false} RecordsAreRead(records: seq<Record>, tail: Bytes, swapped: bool, linktype: uint32)
    requires AllFit(records) && Incomplete(tail, swapped)
    ensures Walk(PrintRecords(records, swapped) + tail, swapped, linktype)
         == Items(linktype, Contents(records)) + if tail == [] then [] else [Complain]
    decreases |records|
  {
    hide Included;
    hide PrintRecord;
    hide Incomplete;
    if records == [] {
      TailIsComplained(tail, swapped, linktype);
      assert [] + tail == tail;
    } else {
      var rest := PrintRecords(records[1..], swapped) + tail;
      RecordIsRead(records[0], swapped, rest);
      RecordsAreRead(records[1..], tail, swapped, linktype);
      hide Walk;
      assert PrintRecords(records, swapped) + tail == PrintRecord(records[0], swapped) + rest;
      WalkTurn(PrintRecord(records[0], swapped) + rest, swapped, linktype);
      var first, more := [Deliver(linktype, records[0].data)], Items(linktype, Contents(records[1..]));
      Associates(first, more, if tail == [] then [] else [Complain]);
      assert Contents(records)[1..] == Contents(records[1..]);
    }
  }

  lemma FileIsWalked(w: Bytes, field: uint32, swapped: bool)
    requires |w| >= 24 && Order(Le32(w)) == Some(swapped) && Field(w[20..], swapped) == field
    ensures File(w) == Walked(Walk(w[24..], swapped, field % 0x1000_0000), false)
  {
    hide Walk;
    hide Order;
    hide Field;
    hide Le32;
  }

  /** Printed in either byte order and precision, the packets are read back, each as it was captured, whatever its time
      and its length on the bus; part of a record behind them is complained of. */
  lemma RoundTrip(field: uint32, records: seq<Record>, tail: Bytes, swapped: bool, nanoseconds: bool)
    requires AllFit(records) && Incomplete(tail, swapped)
    ensures File(PrintFile(field, records, tail, swapped, nanoseconds))
         == Walked(Items(field % 0x1000_0000, Contents(records)) + if tail == [] then [] else [Complain], false)
  {
    hide FileHeader;
    hide PrintRecords;
    hide Walk;
    hide Order;
    hide Field;
    hide Le32;
    hide Items;
    hide Incomplete;
    var body := PrintRecords(records, swapped) + tail;
    HeaderIsRead(field, swapped, nanoseconds, body);
    RecordsAreRead(records, tail, swapped, field % 0x1000_0000);
    FileIsWalked(PrintFile(field, records, tail, swapped, nanoseconds), field, swapped);
  }

  // ---- Files that are none ----

  /** The first bytes of a file in either byte order, in microseconds and in nanoseconds. */
  predicate IsMagic(s: Bytes) {
    s == [0xD4, 0xC3, 0xB2, 0xA1] || s == [0x4D, 0x3C, 0xB2, 0xA1]
    || s == [0xA1, 0xB2, 0xC3, 0xD4] || s == [0xA1, 0xB2, 0x3C, 0x4D]
  }

  lemma DigitsTell(s: Bytes, a: byte, b: byte, c: byte, d: byte)
    requires |s| == 4
    ensures Le32(s) == Le32([a, b, c, d]) <==> s == [a, b, c, d]
  {
    hide Le32;
    hide PutLe32;
    PutLe32OfLe32(s);
    PutLe32OfLe32([a, b, c, d]);
  }

  /** A file fails exactly when it has no whole header that starts as one, and then it delivers nothing. */
  lemma FailsByHeader(data: Bytes)
    ensures File(data).failed <==> |data| < 24 || !IsMagic(data[..4])
    ensures File(data).failed ==> File(data).items == []
  {
    hide Le32;
    hide Walk;
    hide Field;
    if |data| >= 24 {
      var s := data[..4];
      Le32Prefix(data);
      DigitsTell(s, 0xD4, 0xC3, 0xB2, 0xA1);
      DigitsTell(s, 0x4D, 0x3C, 0xB2, 0xA1);
      DigitsTell(s, 0xA1, 0xB2, 0xC3, 0xD4);
      DigitsTell(s, 0xA1, 0xB2, 0x3C, 0x4D);
      Le32OfDigits(0xD4, 0xC3, 0xB2, 0xA1);
      Le32OfDigits(0x4D, 0x3C, 0xB2, 0xA1);
      Le32OfDigits(0xA1, 0xB2, 0xC3, 0xD4);
      Le32OfDigits(0xA1, 0xB2, 0x3C, 0x4D);
    }
  }
}

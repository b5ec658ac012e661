/** The classic pcap container: a file header, then records, in either byte order. */
module Pcap {
  import opened Wire
  import opened LinkTypes
  import opened Records
  import I = InputFile

  const FILE_HEADER: nat := 24
  const RECORD_HEADER: nat := 16

  const MICROSECONDS: uint32 := 0xA1B2C3D4
  const NANOSECONDS: uint32 := 0xA1B23C4D
  const MICROSECONDS_SWAPPED: uint32 := 0xD4C3B2A1
  const NANOSECONDS_SWAPPED: uint32 := 0x4D3CB2A1

  /** A field in the byte order of the file. */
  function Field(s: Bytes, swapped: bool): uint32
    requires |s| >= 4
  {
    if swapped then Be32(s) else Le32(s)
  }

  /** Whether a file with this magic number is in the other byte order, if it is one of ours. */
  function Order(magic: uint32): Option<bool> {
    if magic == MICROSECONDS || magic == NANOSECONDS then Some(false)
    else if magic == MICROSECONDS_SWAPPED || magic == NANOSECONDS_SWAPPED then Some(true)
    else None
  }

  /** The length of the data of the record in front, when all of it is there. */
  function Included(rest: Bytes, swapped: bool): (length: Option<nat>)
    ensures length.Some? ==> RECORD_HEADER + length.value <= |rest|
  {
    if |rest| < RECORD_HEADER then None
    else if Field(rest[8..], swapped) > |rest| - RECORD_HEADER then None
    else Some(Field(rest[8..], swapped))
  }

  function Walk(rest: Bytes, swapped: bool, linktype: uint32): seq<Item>
    decreases |rest|
  {
    if rest == [] then []
    else
      var included := Included(rest, swapped);
      if included.None? then [Complain]
      else
        [Deliver(linktype, rest[RECORD_HEADER..RECORD_HEADER + included.value])]
        + Walk(rest[RECORD_HEADER + included.value..], swapped, linktype)
  }

  /** A whole file; the high four bits of its link type field say something else. */
  function File(data: Bytes): Walked {
    if |data| < FILE_HEADER then Walked([], true)
    else
      var swapped := Order(Le32(data));
      if swapped.None? then Walked([], true)
      else Walked(Walk(data[FILE_HEADER..], swapped.value, Field(data[20..], swapped.value) % 0x1000_0000), false)
  }

  // ---- The reader ----

  /** One turn of the walk, behind what is done. */
  lemma WalkTurns(rest: Bytes, swapped: bool, linktype: uint32, done: seq<Item>)
    ensures done + Walk(rest, swapped, linktype) ==
      if rest == [] then done
      else if Included(rest, swapped).None? then done + [Complain]
      else
        var end := RECORD_HEADER + Included(rest, swapped).value;
        done + [Deliver(linktype, rest[RECORD_HEADER..end])] + Walk(rest[end..], swapped, linktype)
  {
    assert done + [] == done;
    hide Included;
    if rest != [] && Included(rest, swapped).Some? {
      var end := RECORD_HEADER + Included(rest, swapped).value;
      Associates(done, [Deliver(linktype, rest[RECORD_HEADER..end])], Walk(rest[end..], swapped, linktype));
    }
  }

  /** Reads the records of a file, driving the devices as it goes; the result tells of a parse error. */
  method Parse(file: I.InputFile, data: Bytes) returns (failed: bool)
    requires file.Valid() && Coherent(file.Value())
    modifies file, file.Repr()
    ensures file.Valid() && fresh(file.Repr() - old(file.Repr()))
    ensures Coherent(old(file.Value())) && file.Value() == TakeAll(old(file.Value()), File(data).items)
    ensures failed == File(data).failed
  {
    hide Coherent;
    hide TakeAll;
    hide I.InputFile.Valid;
    hide I.InputFile.Value;
    hide Le32;
    hide Field;
    hide Walk;
    ghost var start, done: seq<Item> := file.Value(), [];
    TakeNone(start);
    if |data| < FILE_HEADER { return true; }

    var magic := Le32(data);
    var swapped: bool;
    if magic == MICROSECONDS || magic == NANOSECONDS {
      swapped := false;
    } else if magic == MICROSECONDS_SWAPPED || magic == NANOSECONDS_SWAPPED {
      swapped := true;
    } else {
      return true;
    }

    var linktype := Field(data[20..], swapped) % 0x1000_0000;
    var offset := FILE_HEADER;
    assert [] + File(data).items == File(data).items;
    while offset < |data|
      invariant FILE_HEADER <= offset <= |data| && file.Valid() && fresh(file.Repr() - old(file.Repr()))
      invariant Coherent(start) && file.Value() == TakeAll(start, done)
      invariant File(data) == Walked(done + Walk(data[offset..], swapped, linktype), false)
    {
      WalkTurns(data[offset..], swapped, linktype, done);
      var remaining := |data| - offset;
      if remaining < RECORD_HEADER {
        I.Complains(file, start, done);
        return false;
      }
      DropTwice(data, offset, 8);
      var included := Field(data[offset + 8..], swapped);
      if included > remaining - RECORD_HEADER {
        I.Complains(file, start, done);
        return false;
      }

      var packet := data[offset + RECORD_HEADER..offset + RECORD_HEADER + included];
      assert packet == data[offset..][RECORD_HEADER..RECORD_HEADER + included];
      DropTwice(data, offset, RECORD_HEADER + included);
      I.Delivers(file, linktype, packet, start, done);
      done := done + [Deliver(linktype, packet)];
      offset := offset + RECORD_HEADER + included;
    }
    WalkTurns(data[offset..], swapped, linktype, done);
    return false;
  }
}

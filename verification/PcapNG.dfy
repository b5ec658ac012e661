/** The pcapng container: a walk over blocks that delivers packets with their interface's link type. */
module PcapNG {
  import opened Wire
  import opened LinkTypes
  import opened Records
  import I = InputFile

  const BLOCK_HEADER: nat := 8
  /** The header, and the length once more behind the body. */
  const BLOCK_OVERHEAD: nat := 12

  const SECTION_HEADER: uint32 := 0x0A0D0D0A
  const INTERFACE_DESCRIPTION: uint32 := 1
  const SIMPLE_PACKET: uint32 := 3
  const ENHANCED_PACKET: uint32 := 6

  const SECTION_HEADER_SIZE: nat := 16
  const INTERFACE_DESCRIPTION_SIZE: nat := 8
  const SIMPLE_PACKET_SIZE: nat := 4
  const ENHANCED_PACKET_SIZE: nat := 20

  const BYTE_ORDER_MAGIC: uint32 := 0x1A2B3C4D

  datatype Interface = Interface(linktype: uint16, snaplen: uint32)

  /** What a block gives: the interfaces known after it, and what it delivers. */
  datatype Content = Content(interfaces: seq<Interface>, items: seq<Item>)

  function ReadInterface(body: Bytes, interfaces: seq<Interface>): Content {
    if |body| < INTERFACE_DESCRIPTION_SIZE then Content(interfaces, [Complain])
    else Content(interfaces + [Interface(Le16(body), Le32(body[4..]))], [])
  }

  function ReadEnhanced(body: Bytes, interfaces: seq<Interface>): Item {
    if |body| < ENHANCED_PACKET_SIZE then Complain
    else if Le32(body) >= |interfaces| then Complain
    else if Le32(body[12..]) > |body| - ENHANCED_PACKET_SIZE then Complain
    else Deliver(interfaces[Le32(body)].linktype, body[ENHANCED_PACKET_SIZE..ENHANCED_PACKET_SIZE + Le32(body[12..])])
  }

  /** A simple packet is on the first interface, and cut to what that interface captures. */
  function ReadSimple(body: Bytes, interfaces: seq<Interface>): Item {
    if |body| < SIMPLE_PACKET_SIZE || interfaces == [] then Complain
    else
      var present := Min(Le32(body), |body| - SIMPLE_PACKET_SIZE);
      var captured := if interfaces[0].snaplen != 0 then Min(present, interfaces[0].snaplen) else present;
      Deliver(interfaces[0].linktype, body[SIMPLE_PACKET_SIZE..SIMPLE_PACKET_SIZE + captured])
  }

  function ReadBody(kind: uint32, body: Bytes, interfaces: seq<Interface>): Content {
    if kind == INTERFACE_DESCRIPTION then ReadInterface(body, interfaces)
    else if kind == ENHANCED_PACKET then Content(interfaces, [ReadEnhanced(body, interfaces)])
    else if kind == SIMPLE_PACKET then Content(interfaces, [ReadSimple(body, interfaces)])
    else Content(interfaces, [])
  }

  /** What the front of the remaining bytes is: the end of the walk, as an error or a complaint, or a block. */
  datatype Turn = Stop(failed: bool) | Block(length: nat, content: Content)

  /** A section starts without interfaces; this is none when its header cannot be accepted. */
  function Scope(rest: Bytes, interfaces: seq<Interface>): Option<seq<Interface>>
    requires |rest| >= BLOCK_OVERHEAD
  {
    if Le32(rest) != SECTION_HEADER then Some(interfaces)
    else if |rest| - BLOCK_HEADER < SECTION_HEADER_SIZE || Le32(rest[BLOCK_HEADER..]) != BYTE_ORDER_MAGIC then None
    else Some([])
  }

  /** The length of a block whose two lengths agree and whose end is there. */
  function Framed(rest: Bytes): (length: Option<nat>)
    requires |rest| >= BLOCK_OVERHEAD
    ensures length.Some? ==> BLOCK_OVERHEAD <= length.value <= |rest|
  {
    var length := Le32(rest[4..]);
    if length < BLOCK_OVERHEAD || length % 4 != 0 || length > |rest| then None
    else if Le32(rest[length - 4..]) != length then None
    else Some(length)
  }

  function ReadBlock(rest: Bytes, first: bool, interfaces: seq<Interface>): (t: Turn)
    ensures t.Block? ==> BLOCK_OVERHEAD <= t.length <= |rest|
  {
    if |rest| < BLOCK_OVERHEAD then Stop(false)
    else if first && Le32(rest) != SECTION_HEADER then Stop(true)
    else
      var scope, length := Scope(rest, interfaces), Framed(rest);
      if scope.None? then Stop(true)
      else if length.None? then Stop(first)
      else Block(length.value, ReadBody(Le32(rest), rest[BLOCK_HEADER..length.value - 4], scope.value))
  }

  function Walk(rest: Bytes, first: bool, interfaces: seq<Interface>): Walked
    decreases |rest|
  {
    if rest == [] then Walked([], false)
    else
      var turn := ReadBlock(rest, first, interfaces);
      if turn.Stop? then Walked(if turn.failed then [] else [Complain], turn.failed)
      else
        var w := Walk(rest[turn.length..], false, turn.content.interfaces);
        Walked(turn.content.items + w.items, w.failed)
  }

  /** A whole file: what its reader delivers, and whether it ends in a parse error. */
  function File(data: Bytes): Walked {
    Walk(data, true, [])
  }

  // ---- The reader ----

  lemma WalkStops(rest: Bytes, first: bool, interfaces: seq<Interface>)
    requires rest != [] && ReadBlock(rest, first, interfaces).Stop?
    ensures var failed := ReadBlock(rest, first, interfaces).failed;
            Walk(rest, first, interfaces) == Walked(if failed then [] else [Complain], failed)
  {
  }

  lemma WalkHalts(rest: Bytes, first: bool, interfaces: seq<Interface>, done: seq<Item>)
    requires rest != [] && ReadBlock(rest, first, interfaces).Stop?
    ensures var failed, w := ReadBlock(rest, first, interfaces).failed, Walk(rest, first, interfaces);
            Walked(done + w.items, w.failed) == Walked(done + if failed then [] else [Complain], failed)
  {
  }

  lemma WalkEnds(data: Bytes, offset: nat, interfaces: seq<Interface>, done: seq<Item>)
    requires offset == |data|
    ensures var w := Walk(data[offset..], offset == 0, interfaces);
            Walked(done + w.items, w.failed) == Walked(done, false)
  {
    assert data[offset..] == [] && done + [] == done;
  }

  lemma WalkGoesOn(rest: Bytes, first: bool, interfaces: seq<Interface>, done: seq<Item>)
    requires ReadBlock(rest, first, interfaces).Block?
    ensures var block, w := ReadBlock(rest, first, interfaces), Walk(rest, first, interfaces);
            var more := Walk(rest[block.length..], false, block.content.interfaces);
            Walked(done + w.items, w.failed) == Walked(done + block.content.items + more.items, more.failed)
  {
    var block := ReadBlock(rest, first, interfaces);
    hide ReadBlock;
    Associates(done, block.content.items, Walk(rest[block.length..], false, block.content.interfaces).items);
  }

  method ProcessBody(file: I.InputFile, kind: uint32, body: Bytes, interfaces: seq<Interface>,
                     ghost start: Capture, ghost done: seq<Item>)
    returns (after: seq<Interface>)
    requires Coherent(start) && file.Valid() && file.Value() == TakeAll(start, done)
    modifies file, file.Repr()
    ensures file.Valid() && fresh(file.Repr() - old(file.Repr()))
    ensures after == ReadBody(kind, body, interfaces).interfaces
    ensures file.Value() == TakeAll(start, done + ReadBody(kind, body, interfaces).items)
  {
    hide Coherent;
    hide TakeAll;
    hide I.InputFile.Valid;
    hide I.InputFile.Value;
    hide Le16;
    hide Le32;
    assert done + [] == done;
    after := interfaces;
    if kind == INTERFACE_DESCRIPTION {
      if |body| < INTERFACE_DESCRIPTION_SIZE {
        I.Complains(file, start, done);
        return;
      }
      after := after + [Interface(Le16(body), Le32(body[4..]))];
    } else if kind == ENHANCED_PACKET {
      if |body| < ENHANCED_PACKET_SIZE {
        I.Complains(file, start, done);
        return;
      }
      if Le32(body) >= |interfaces| {
        I.Complains(file, start, done);
        return;
      }
      if Le32(body[12..]) > |body| - ENHANCED_PACKET_SIZE {
        I.Complains(file, start, done);
        return;
      }
      I.Delivers(file, interfaces[Le32(body)].linktype,
          body[ENHANCED_PACKET_SIZE..ENHANCED_PACKET_SIZE + Le32(body[12..])],
               start, done);
    } else if kind == SIMPLE_PACKET {
      if |body| < SIMPLE_PACKET_SIZE || |interfaces| == 0 {
        I.Complains(file, start, done);
        return;
      }
      var captured := Min(Le32(body), |body| - SIMPLE_PACKET_SIZE);
      if interfaces[0].snaplen != 0 { captured := Min(captured, interfaces[0].snaplen); }
      I.Delivers(file, interfaces[0].linktype, body[SIMPLE_PACKET_SIZE..SIMPLE_PACKET_SIZE + captured], start, done);
    }
  }

  /** Takes the block at the front of the remaining bytes. */
  method ProcessBlock(file: I.InputFile, rest: Bytes, first: bool, interfaces: seq<Interface>,
                      ghost start: Capture, ghost done: seq<Item>)
    returns (halted: bool, failed: bool, length: nat, after: seq<Interface>)
    requires Coherent(start) && file.Valid() && file.Value() == TakeAll(start, done)
    modifies file, file.Repr()
    ensures file.Valid() && fresh(file.Repr() - old(file.Repr()))
    ensures var turn := ReadBlock(rest, first, interfaces);
            if turn.Stop? then
              && halted && failed == turn.failed
              && file.Value() == TakeAll(start, done + if failed then [] else [Complain])
            else
              && !halted && length == turn.length && after == turn.content.interfaces
              && file.Value() == TakeAll(start, done + turn.content.items)
  {
    hide Coherent;
    hide TakeAll;
    hide I.InputFile.Valid;
    hide I.InputFile.Value;
    hide Le32;
    hide ReadBody;
    assert done + [] == done;
    halted, failed, length, after := true, false, 0, interfaces;
    if |rest| < BLOCK_OVERHEAD {
      I.Complains(file, start, done);
      return;
    }

    var kind := Le32(rest);
    if first && kind != SECTION_HEADER {
      failed := true;
      return;
    }

    if kind == SECTION_HEADER {
      if |rest| - BLOCK_HEADER < SECTION_HEADER_SIZE || Le32(rest[BLOCK_HEADER..]) != BYTE_ORDER_MAGIC {
        failed := true;
        return;
      }
      after := [];
    }

    length := Le32(rest[4..]);
    if length < BLOCK_OVERHEAD || length % 4 != 0 || length > |rest| {
      if first { failed := true; } else { I.Complains(file, start, done); }
      return;
    }

    if Le32(rest[length - 4..]) != length {
      if first { failed := true; } else { I.Complains(file, start, done); }
      return;
    }

    halted := false;
    after := ProcessBody(file, kind, rest[BLOCK_HEADER..length - 4], after, start, done);
  }

  /** Walks a file block by block, driving the devices as it goes; the result tells of a parse error. */
  method Parse(file: I.InputFile, data: Bytes) returns (failed: bool)
    requires file.Valid() && Coherent(file.Value())
    modifies file, file.Repr()
    ensures file.Valid() && fresh(file.Repr() - old(file.Repr()))
    ensures Coherent(old(file.Value())) && file.Value() == TakeAll(old(file.Value()), File(data).items)
    ensures failed == File(data).failed
  {
    hide Coherent;
    hide TakeAll;
    hide I.InputFile.Valid;
    hide I.InputFile.Value;
    hide ReadBlock;
    var offset: nat := 0;
    var interfaces: seq<Interface> := [];
    ghost var start, done: seq<Item> := file.Value(), [];
    TakeNone(start);
    assert data[0..] == data;
    assert [] + File(data).items == File(data).items;
    hide I.InputFile.Repr;
    while offset < |data|
      invariant offset <= |data| && file.Valid() && fresh(file.Repr() - old(file.Repr()))
      invariant Coherent(start) && file.Value() == TakeAll(start, done)
      invariant var w := Walk(data[offset..], offset == 0, interfaces);
                File(data) == Walked(done + w.items, w.failed)
    {
      ghost var rest, first := data[offset..], offset == 0;
      ghost var turn := ReadBlock(rest, first, interfaces);
      if turn.Stop? {
        WalkHalts(rest, first, interfaces, done);
      } else {
        WalkGoesOn(rest, first, interfaces, done);
        DropTwice(data, offset, turn.length);
      }
      hide Walk;
      var halted, broken, length, after := ProcessBlock(file, data[offset..], offset == 0, interfaces, start, done);
      if halted { return broken; }
      done := done + turn.content.items;
      offset, interfaces := offset + length, after;
    }
    WalkEnds(data, offset, interfaces, done);
    return false;
  }
}

/** Truncated captures deliver a prefix, captures concatenate, and printed captures are read back. */
module PcapNGLaws {
  import opened Wire
  import opened Records
  import opened PcapNG

  // ---- Truncation ----

  lemma Le32Extends(a: Bytes, b: Bytes, at: nat)
    requires at + 4 <= |a|
    ensures Le32((a + b)[at..]) == Le32(a[at..])
  {
    assert forall i | 0 <= i < 4 :: (a + b)[at..][i] == a[at..][i];
  }

  lemma FramedExtends(a: Bytes, b: Bytes)
    requires |a| >= BLOCK_OVERHEAD && Framed(a).Some?
    ensures Framed(a + b) == Framed(a)
  {
    Le32Extends(a, b, 4);
    Le32Extends(a, b, Le32(a[4..]) - 4);
    hide Le32;
  }

  lemma ScopeExtends(a: Bytes, b: Bytes, interfaces: seq<Interface>)
    requires |a| >= BLOCK_OVERHEAD && Scope(a, interfaces).Some?
    ensures Scope(a + b, interfaces) == Scope(a, interfaces)
  {
    assert a[0..] == a && (a + b)[0..] == a + b;
    Le32Extends(a, b, 0);
    Le32Extends(a, b, BLOCK_HEADER);
    hide Le32;
  }

  /** A block is what it is, whatever follows it. */
  lemma BlockExtends(a: Bytes, b: Bytes, first: bool, interfaces: seq<Interface>)
    requires ReadBlock(a, first, interfaces).Block?
    ensures ReadBlock(a + b, first, interfaces) == ReadBlock(a, first, interfaces)
  {
    var length := ReadBlock(a, first, interfaces).length;
    FramedExtends(a, b);
    ScopeExtends(a, b, interfaces);
    assert a[0..] == a && (a + b)[0..] == a + b;
    Le32Extends(a, b, 0);
    hide Le32;
    hide Scope;
    hide Framed;
    hide ReadBody;
    assert (a + b)[BLOCK_HEADER..length - 4] == a[BLOCK_HEADER..length - 4];
  }

  /** A block all there before a cut is still refused only as a section header, which delivers nothing and leaves no
      room for another block. */
  lemma RefusedAtCut(rest: Bytes, n: nat, first: bool, interfaces: seq<Interface>)
    requires n <= |rest| && ReadBlock(rest, first, interfaces).Block? && ReadBlock(rest, first, interfaces).length <= n
    requires ReadBlock(rest[..n], first, interfaces).Stop?
    ensures ReadBlock(rest, first, interfaces).content.items == []
    ensures n - ReadBlock(rest, first, interfaces).length < BLOCK_OVERHEAD
  {
    var cut := rest[..n];
    var length := ReadBlock(rest, first, interfaces).length;
    assert cut + rest[n..] == rest;
    assert cut[0..] == cut && rest[0..] == rest;
    Le32Extends(cut, rest[n..], 0);
    Le32Extends(cut, rest[n..], 4);
    Le32Extends(cut, rest[n..], length - 4);
    if n >= BLOCK_HEADER + 4 { Le32Extends(cut, rest[n..], BLOCK_HEADER); }
    hide Le32;
  }

  /** The items of the blocks that lie wholly within the first bytes. */
  function Contained(rest: Bytes, n: nat, first: bool, interfaces: seq<Interface>): seq<Item>
    decreases |rest|
  {
    var turn := ReadBlock(rest, first, interfaces);
    if turn.Stop? || turn.length > n then []
    else turn.content.items + Contained(rest[turn.length..], n - turn.length, false, turn.content.interfaces)
  }

  lemma {:induction false} ContainedIsPrefix(rest: Bytes, n: nat, first: bool, interfaces: seq<Interface>)
    ensures Contained(rest, n, first, interfaces) <= Walk(rest, first, interfaces).items
    decreases |rest|
  {
    var turn := ReadBlock(rest, first, interfaces);
    hide ReadBlock;
    if !turn.Block? || turn.length > n {
    } else {
      ContainedIsPrefix(rest[turn.length..], n - turn.length, false, turn.content.interfaces);
    }
  }

  lemma ContainedStep(rest: Bytes, n: nat, first: bool, interfaces: seq<Interface>)
    ensures var turn := ReadBlock(rest, first, interfaces);
            Contained(rest, n, first, interfaces)
            == if turn.Stop? || turn.length > n then []
               else turn.content.items + Contained(rest[turn.length..], n - turn.length, false, turn.content.interfaces)
  {
    hide ReadBlock;
  }

  lemma CutStops(rest: Bytes, n: nat, first: bool, interfaces: seq<Interface>)
    requires 0 < n <= |rest| && ReadBlock(rest[..n], first, interfaces).Stop?
    ensures Delivered(Walk(rest[..n], first, interfaces).items) == Delivered(Contained(rest, n, first, interfaces))
  {
    hide ReadBlock;
    hide Walk;
    hide Contained;
    WalkStops(rest[..n], first, interfaces);
    ContainedStep(rest, n, first, interfaces);
    var whole := ReadBlock(rest, first, interfaces);
    if whole.Block? && whole.length <= n {
      RefusedAtCut(rest, n, first, interfaces);
      NothingContained(rest[whole.length..], n - whole.length, whole.content.interfaces);
    }
  }

  lemma CutToNothing(rest: Bytes, first: bool, interfaces: seq<Interface>)
    ensures Delivered(Walk(rest[..0], first, interfaces).items) == Delivered(Contained(rest, 0, first, interfaces))
  {
    assert rest[..0] == [];
    NothingAtAll(rest, first, interfaces);
    hide Contained;
    hide ReadBlock;
  }

  lemma CutGoesOn(rest: Bytes, n: nat, first: bool, interfaces: seq<Interface>)
    requires n <= |rest| && ReadBlock(rest[..n], first, interfaces).Block?
    ensures ReadBlock(rest, first, interfaces) == ReadBlock(rest[..n], first, interfaces)
    ensures var turn := ReadBlock(rest, first, interfaces);
            && turn.length <= n
            && rest[..n][turn.length..] == rest[turn.length..][..n - turn.length]
  {
    hide ReadBlock;
    assert rest[..n] + rest[n..] == rest;
    BlockExtends(rest[..n], rest[n..], first, interfaces);
    TakeDrop(rest, ReadBlock(rest, first, interfaces).length, n);
  }

  /** A truncated file delivers exactly the packets of the blocks left whole, even where it ends in an error. */
  lemma {:induction false} TruncationKeepsWholeBlocks(rest: Bytes, n: nat, first: bool, interfaces: seq<Interface>)
    requires n <= |rest|
    ensures Delivered(Walk(rest[..n], first, interfaces).items) == Delivered(Contained(rest, n, first, interfaces))
    decreases |rest|
  {
    hide ReadBlock;
    hide Walk;
    hide Contained;
    hide Delivered;
    var cut := rest[..n];
    if n == 0 {
      CutToNothing(rest, first, interfaces);
    } else if ReadBlock(cut, first, interfaces).Stop? {
      CutStops(rest, n, first, interfaces);
    } else {
      var turn := ReadBlock(cut, first, interfaces);
      CutGoesOn(rest, n, first, interfaces);
      var next, after := rest[turn.length..], turn.content.interfaces;
      TruncationKeepsWholeBlocks(next, n - turn.length, false, after);
      WalkStep(cut, first, interfaces);
      ContainedStep(rest, n, first, interfaces);
      DeliveredAppend(turn.content.items, Walk(cut[turn.length..], false, after).items);
      DeliveredAppend(turn.content.items, Contained(next, n - turn.length, false, after));
    }
  }

  lemma NothingContained(rest: Bytes, n: nat, interfaces: seq<Interface>)
    requires n < BLOCK_OVERHEAD
    ensures Contained(rest, n, false, interfaces) == []
  {
    hide Scope;
    hide Framed;
    hide ReadBody;
  }

  lemma NothingAtAll(rest: Bytes, first: bool, interfaces: seq<Interface>)
    ensures Contained(rest, 0, first, interfaces) == []
  {
    hide Scope;
    hide Framed;
    hide ReadBody;
  }

  /** Whatever a truncated file delivers, the whole file delivers first. */
  lemma TruncationIsPrefix(data: Bytes, n: nat)
    requires n <= |data|
    ensures Delivered(File(data[..n]).items) <= Delivered(File(data).items)
  {
    hide Walk;
    hide Contained;
    hide Delivered;
    TruncationKeepsWholeBlocks(data, n, true, []);
    ContainedIsPrefix(data, n, true, []);
    var contained, all := Contained(data, n, true, []), File(data).items;
    assert contained + all[|contained|..] == all;
    DeliveredAppend(contained, all[|contained|..]);
  }

  // ---- Concatenation ----

  /** The interfaces known at the end of a walk that ends with a block. */
  function End(rest: Bytes, first: bool, interfaces: seq<Interface>): Option<seq<Interface>>
    decreases |rest|
  {
    if rest == [] then Some(interfaces)
    else
      var turn := ReadBlock(rest, first, interfaces);
      if turn.Stop? then None else End(rest[turn.length..], false, turn.content.interfaces)
  }

  lemma WalkStep(rest: Bytes, first: bool, interfaces: seq<Interface>)
    requires ReadBlock(rest, first, interfaces).Block?
    ensures var block := ReadBlock(rest, first, interfaces);
            var w := Walk(rest[block.length..], false, block.content.interfaces);
            && Walk(rest, first, interfaces) == Walked(block.content.items + w.items, w.failed)
            && End(rest, first, interfaces) == End(rest[block.length..], false, block.content.interfaces)
  {
    hide ReadBlock;
  }

  lemma EndGoesOn(rest: Bytes, first: bool, interfaces: seq<Interface>)
    requires rest != [] && End(rest, first, interfaces).Some?
    ensures ReadBlock(rest, first, interfaces).Block?
  {
  }

  /** Walking a, then b, from where a leaves the walk. */
  function Then(a: Bytes, b: Bytes, first: bool, interfaces: seq<Interface>): Walked
    requires End(a, first, interfaces).Some?
  {
    var w := Walk(b, first && a == [], End(a, first, interfaces).value);
    Walked(Walk(a, first, interfaces).items + w.items, w.failed)
  }

  lemma ThenGoesOn(a: Bytes, b: Bytes, first: bool, interfaces: seq<Interface>)
    requires ReadBlock(a, first, interfaces).Block? && End(a, first, interfaces).Some?
    ensures var turn := ReadBlock(a, first, interfaces);
            && End(a[turn.length..], false, turn.content.interfaces).Some?
            && var rest := Then(a[turn.length..], b, false, turn.content.interfaces);
            Then(a, b, first, interfaces) == Walked(turn.content.items + rest.items, rest.failed)
  {
    var turn := ReadBlock(a, first, interfaces);
    WalkStep(a, first, interfaces);
    hide Walk;
    hide End;
    hide ReadBlock;
    var next, after := a[turn.length..], turn.content.interfaces;
    Associates(turn.content.items, Walk(next, false, after).items, Walk(b, false, End(next, false, after).value).items);
  }

  lemma NothingAppends(b: Bytes, first: bool, interfaces: seq<Interface>)
    ensures Walk([] + b, first, interfaces) == Then([], b, first, interfaces) && !Walk([], first, interfaces).failed
  {
    assert [] + b == b;
    var w := Walk(b, first, interfaces);
    assert Then([], b, first, interfaces) == Walked([] + w.items, w.failed);
    assert [] + w.items == w.items;
  }

  lemma {:induction false} WalkAppends(a: Bytes, b: Bytes, first: bool, interfaces: seq<Interface>)
    requires End(a, first, interfaces).Some?
    ensures !Walk(a, first, interfaces).failed && Walk(a + b, first, interfaces) == Then(a, b, first, interfaces)
    decreases |a|
  {
    hide Walk;
    hide End;
    hide ReadBlock;
    hide Then;
    if a == [] {
      NothingAppends(b, first, interfaces);
    } else {
      EndGoesOn(a, first, interfaces);
      BlockExtends(a, b, first, interfaces);
      var turn := ReadBlock(a, first, interfaces);
      WalkStep(a, first, interfaces);
      WalkStep(a + b, first, interfaces);
      ThenGoesOn(a, b, first, interfaces);
      DropExtends(a, b, turn.length);
      WalkAppends(a[turn.length..], b, false, turn.content.interfaces);
    }
  }

  /** A section forgets the interfaces before it: a file appended to one that ends with a block is read as it would be
      on its own. */
  lemma FilesConcatenate(a: Bytes, b: Bytes)
    requires End(a, true, []).Some? && !File(b).failed
    ensures File(a + b) == Walked(File(a).items + File(b).items, false)
  {
    WalkAppends(a, b, true, []);
    if a != [] && b != [] {
      SectionForgets(b, End(a, true, []).value);
    }
    hide Walk;
    hide End;
  }

  lemma SectionForgets(b: Bytes, interfaces: seq<Interface>)
    requires b != [] && !Walk(b, true, []).failed
    ensures Walk(b, false, interfaces) == Walk(b, true, [])
  {
    SectionIsRead(b, interfaces);
    hide ReadBlock;
  }

  lemma SectionIsRead(b: Bytes, interfaces: seq<Interface>)
    requires b != [] && !Walk(b, true, []).failed
    ensures ReadBlock(b, false, interfaces) == ReadBlock(b, true, [])
  {
    hide ReadBody;
    hide Framed;
    hide Le32;
  }

  // ---- Printing ----

  /** Bytes that bring a body to a multiple of four. */
  function Padding(body: Bytes): (p: Bytes)
    ensures |p| < 4 && (|body| + |p|) % 4 == 0
  {
    Zeros((4 - |body| % 4) % 4)
  }

  predicate FitsBlock(body: Bytes) {
    |body| + |Padding(body)| + 12 < 0x1_0000_0000
  }

  function PrintBlock(kind: uint32, body: Bytes): (block: Bytes)
    requires FitsBlock(body)
  {
    var padded := body + Padding(body);
    var length := |padded| + 12;
    PutLe32(kind) + (PutLe32(length) + (padded + PutLe32(length)))
  }

  /** A section length of minus one. */
  const UNSPECIFIED_LENGTH: Bytes := [0xFF, 0xFF, 0xFF, 0xFF, 0xFF, 0xFF, 0xFF, 0xFF]

  /** The bodies of blocks may have options behind what is read of them. */
  function SectionHeaderBody(options: Bytes): (body: Bytes)
    ensures |body| == 16 + |options|
  {
    PutLe32(0x1A2B3C4D) + (PutLe16(1) + (PutLe16(0) + (UNSPECIFIED_LENGTH + options)))
  }

  function InterfaceBody(i: Interface, options: Bytes): (body: Bytes)
    ensures |body| == 8 + |options|
  {
    PutLe16(i.linktype) + (PutLe16(0) + (PutLe32(i.snaplen) + options))
  }

  /** The capture time and the length before it was cut are not read, so they may be anything. */
  function EnhancedPacketBody(id: uint32, time: Bytes, data: Bytes, original: uint32, options: Bytes): (body: Bytes)
    requires |time| == 8 && |data| < 0x1_0000_0000
    ensures |body| == 20 + |data| + |options|
  {
    PutLe32(id) + (time + (PutLe32(|data|) + (PutLe32(original) + (data + options))))
  }

  /** The length of the packet, and as much of it as is kept. */
  function SimplePacketBody(packet: Bytes, kept: nat): (body: Bytes)
    requires kept <= |packet| < 0x1_0000_0000
    ensures |body| == 4 + kept
  {
    PutLe32(|packet|) + packet[..kept]
  }

  /** How much of a packet an interface captures. */
  function Captured(i: Interface, packet: Bytes): (n: nat)
    ensures n <= |packet|
  {
    if i.snaplen == 0 then |packet| else Min(|packet|, i.snaplen)
  }

  /** What a section holds behind its header. */
  datatype Record =
    | Declare(interface: Interface, options: Bytes)
    | Enhanced(id: uint32, time: Bytes, data: Bytes, original: uint32, options: Bytes)
    | Simple(packet: Bytes, kept: nat)
    | Other(kind: uint32, body: Bytes)
  {
    /** There is room; a simple packet has kept at least what the first interface captures; and anything else is of no
        kind that is read. */
    predicate Fits(interfaces: seq<Interface>) {
      match this
      case Declare(_, options) => |options| < 0x1_0000_0000 - 0x80
      case Enhanced(_, time, data, _, options) => |time| == 8 && |data| + |options| < 0x1_0000_0000 - 0x80
      case Simple(packet, kept) =>
        && kept <= |packet| < 0x1_0000_0000 - 0x80
        && (interfaces != [] ==> Captured(interfaces[0], packet) <= kept)
      case Other(kind, body) => kind !in {0x0A0D0D0A, 1, 3, 6} && FitsBlock(body)
    }

    function Printed(interfaces: seq<Interface>): Bytes
      requires Fits(interfaces)
    {
      match this
      case Declare(i, options) => PrintBlock(1, InterfaceBody(i, options))
      case Enhanced(id, time, data, original, options) =>
        PrintBlock(6, EnhancedPacketBody(id, time, data, original, options))
      case Simple(packet, kept) => PrintBlock(3, SimplePacketBody(packet, kept))
      case Other(kind, body) => PrintBlock(kind, body)
    }

    /** The interfaces known after it, and what it delivers: a packet of an interface that is known, or a complaint. */
    function Content(interfaces: seq<Interface>): PcapNG.Content {
      match this
      case Declare(i, _) => PcapNG.Content(interfaces + [i], [])
      case Enhanced(id, _, data, _, _) =>
        PcapNG.Content(
          interfaces, [if id < |interfaces| then Deliver(interfaces[id].linktype, data) else Complain])
      case Simple(packet, _) =>
        PcapNG.Content(interfaces, [if interfaces == [] then Complain
            else Deliver(interfaces[0].linktype, packet[..Captured(interfaces[0], packet)])])
      case Other(_, _) => PcapNG.Content(interfaces, [])
    }
  }

  predicate AllFit(interfaces: seq<Interface>, records: seq<Record>)
    decreases |records|
  {
    records != [] ==>
      records[0].Fits(interfaces) && AllFit(records[0].Content(interfaces).interfaces, records[1..])
  }

  function RecordItems(interfaces: seq<Interface>, records: seq<Record>): seq<Item>
    decreases |records|
  {
    if records == [] then []
    else
      var content := records[0].Content(interfaces);
      content.items + RecordItems(content.interfaces, records[1..])
  }

  /** A section: interfaces, packets on them, and whatever else. */
  datatype Section = Section(options: Bytes, records: seq<Record>) {
    predicate Valid() { |options| < 0x1_0000_0000 - 0x80 && AllFit([], records) }

    function Items(): seq<Item> { RecordItems([], records) }
  }

  function PrintRecords(interfaces: seq<Interface>, records: seq<Record>): Bytes
    requires AllFit(interfaces, records)
    decreases |records|
  {
    if records == [] then []
    else
      records[0].Printed(interfaces) + PrintRecords(records[0].Content(interfaces).interfaces, records[1..])
  }

  function PrintSection(s: Section): Bytes
    requires s.Valid()
  {
    PrintBlock(0x0A0D0D0A, SectionHeaderBody(s.options)) + PrintRecords([], s.records)
  }

  function PrintFile(sections: seq<Section>): Bytes
    requires forall i | 0 <= i < |sections| :: sections[i].Valid()
  {
    if sections == [] then [] else PrintSection(sections[0]) + PrintFile(sections[1..])
  }

  function AllItems(sections: seq<Section>): seq<Item> {
    if sections == [] then [] else sections[0].Items() + AllItems(sections[1..])
  }

  // ---- Reading back ----

  lemma PrintedFields(kind: uint32, body: Bytes)
    requires FitsBlock(body)
    ensures var w, padded := PrintBlock(kind, body), body + Padding(body);
            && |w| == |padded| + BLOCK_OVERHEAD && w[BLOCK_HEADER..|w| - 4] == padded
            && Le32(w) == kind && Le32(w[4..]) == |w| && Le32(w[|w| - 4..]) == |w|
  {
    hide Le32;
    hide PutLe32;
    hide Padding;
    var padded := body + Padding(body);
    var length := |padded| + BLOCK_OVERHEAD;
    var w := PrintBlock(kind, body);
    var r8 := padded + PutLe32(length);
    assert w[0..] == w;
    Next(w, 0, PutLe32(kind), PutLe32(length) + r8);
    Next(w, 4, PutLe32(length), r8);
    Next(w, 8, padded, PutLe32(length));
    Le32Of(kind, PutLe32(length) + r8);
    Le32Of(length, r8);
    assert PutLe32(length) + [] == PutLe32(length);
    Le32Of(length, []);
    assert w[8..][..|padded|] == padded;
  }

  lemma LengthsAgree(rest: Bytes, length: nat)
    requires |rest| >= BLOCK_OVERHEAD && BLOCK_OVERHEAD <= length <= |rest| && length % 4 == 0
    requires Le32(rest[4..]) == length && Le32(rest[length - 4..]) == length
    ensures Framed(rest) == Some(length)
  {
    hide Le32;
  }

  lemma PrintedLength(kind: uint32, body: Bytes)
    requires FitsBlock(body)
    ensures |PrintBlock(kind, body)| % 4 == 0 && |PrintBlock(kind, body)| >= BLOCK_OVERHEAD
  {
    var padded := body + Padding(body);
    hide Padding;
    hide PutLe32;
    assert |PrintBlock(kind, body)| == |padded| + BLOCK_OVERHEAD;
    hide PrintBlock;
    FourMore(|padded|);
  }

  lemma FourMore(n: nat)
    requires n % 4 == 0
    ensures (n + 12) % 4 == 0
  {
  }

  lemma PrintedIsFramed(kind: uint32, body: Bytes)
    requires FitsBlock(body)
    ensures |PrintBlock(kind, body)| >= BLOCK_OVERHEAD
    ensures Framed(PrintBlock(kind, body)) == Some(|PrintBlock(kind, body)|)
  {
    hide Le32;
    hide Framed;
    hide Padding;
    hide PrintBlock;
    PrintedLength(kind, body);
    PrintedFields(kind, body);
    LengthsAgree(PrintBlock(kind, body), |PrintBlock(kind, body)|);
  }

  /** A printed block other than a section header is read with the interfaces known. */
  lemma PrintedBlockIsRead(kind: uint32, body: Bytes, interfaces: seq<Interface>)
    requires FitsBlock(body) && kind != SECTION_HEADER
    ensures ReadBlock(PrintBlock(kind, body), false, interfaces)
         == Block(|PrintBlock(kind, body)|, ReadBody(kind, body + Padding(body), interfaces))
  {
    PrintedFields(kind, body);
    PrintedIsFramed(kind, body);
    hide PrintBlock;
    hide Framed;
    hide ReadBody;
    hide Le32;
  }

  lemma SectionHeaderStarts(options: Bytes)
    ensures Le32(SectionHeaderBody(options)) == BYTE_ORDER_MAGIC
  {
    hide Le32;
    Le32Of(0x1A2B3C4D, PutLe16(1) + (PutLe16(0) + (UNSPECIFIED_LENGTH + options)));
  }

  lemma AcceptsSection(w: Bytes, first: bool, interfaces: seq<Interface>)
    requires |w| >= BLOCK_HEADER + SECTION_HEADER_SIZE && Framed(w) == Some(|w|)
    requires Le32(w) == SECTION_HEADER && Le32(w[BLOCK_HEADER..]) == BYTE_ORDER_MAGIC
    ensures ReadBlock(w, first, interfaces) == Block(|w|, Content([], []))
  {
    hide Framed;
    hide Le32;
  }

  lemma PrintedSectionIsRead(options: Bytes, first: bool, interfaces: seq<Interface>)
    requires |options| < 0x1_0000_0000 - 0x80
    ensures var w := PrintBlock(0x0A0D0D0A, SectionHeaderBody(options));
            ReadBlock(w, first, interfaces) == Block(|w|, Content([], []))
  {
    hide SectionHeaderBody;
    hide PrintBlock;
    hide Framed;
    hide Le32;
    hide Padding;
    hide ReadBlock;
    var body := SectionHeaderBody(options);
    var w := PrintBlock(SECTION_HEADER, body);
    SectionHeaderStarts(options);
    PrintedFields(SECTION_HEADER, body);
    PrintedIsFramed(SECTION_HEADER, body);
    PrefixOfTail(w, body, Padding(body));
    AcceptsSection(w, first, interfaces);
  }

  lemma PrefixOfTail(w: Bytes, body: Bytes, pad: Bytes)
    requires |body| >= 4 && |w| >= BLOCK_OVERHEAD && w[BLOCK_HEADER..|w| - 4] == body + pad
    ensures Le32(w[BLOCK_HEADER..]) == Le32(body)
  {
    assert forall i | 0 <= i < 4 :: w[BLOCK_HEADER..][i] == w[BLOCK_HEADER..|w| - 4][i] == body[i];
  }

  lemma InterfaceIsRead(i: Interface, options: Bytes, interfaces: seq<Interface>)
    ensures var body := InterfaceBody(i, options);
            ReadBody(1, body + Padding(body), interfaces) == Content(interfaces + [i], [])
  {
    hide Le16;
    hide Le32;
    hide PutLe16;
    hide PutLe32;
    var body := InterfaceBody(i, options);
    var pad := options + Padding(body);
    hide Padding;
    var w := PutLe16(i.linktype) + (PutLe16(0) + (PutLe32(i.snaplen) + pad));
    assert body + Padding(body) == w;
    assert w[0..] == w;
    Next(w, 0, PutLe16(i.linktype), PutLe16(0) + (PutLe32(i.snaplen) + pad));
    Next(w, 2, PutLe16(0), PutLe32(i.snaplen) + pad);
    Le16Of(i.linktype, PutLe16(0) + (PutLe32(i.snaplen) + pad));
    Le32Of(i.snaplen, pad);
  }

  lemma EnhancedFields(w: Bytes, id: uint32, time: Bytes, data: Bytes, original: uint32, options: Bytes, pad: Bytes)
    requires |time| == 8 && |data| < 0x1_0000_0000 && w == EnhancedPacketBody(id, time, data, original, options) + pad
    ensures |w| == 20 + |data| + |options| + |pad| && Le32(w) == id && Le32(w[12..]) == |data|
    ensures w[20..] == data + (options + pad)
  {
    hide Le32;
    hide PutLe32;
    var r16 := PutLe32(original) + (data + (options + pad));
    var r12 := PutLe32(|data|) + r16;
    var r4 := time + r12;
    assert w == PutLe32(id) + r4;
    hide EnhancedPacketBody;
    assert w[0..] == w;
    Next(w, 0, PutLe32(id), r4);
    Next(w, 4, time, r12);
    Next(w, 12, PutLe32(|data|), r16);
    Next(w, 16, PutLe32(original), data + (options + pad));
    Le32Of(id, r4);
    Le32Of(|data|, r16);
  }

  /** The captured length cuts off what follows; a packet on an interface that is not known is complained of. */
  lemma EnhancedPacketIsRead(
    id: uint32, time: Bytes, data: Bytes, original: uint32, options: Bytes, interfaces: seq<Interface>)
    requires |time| == 8 && |data| < 0x1_0000_0000
    ensures var body := EnhancedPacketBody(id, time, data, original, options);
            ReadBody(6, body + Padding(body), interfaces)
            == Enhanced(id, time, data, original, options).Content(interfaces)
  {
    hide Le32;
    hide Padding;
    var body := EnhancedPacketBody(id, time, data, original, options);
    var w := body + Padding(body);
    EnhancedFields(w, id, time, data, original, options, Padding(body));
    hide EnhancedPacketBody;
    assert w[20..20 + |data|] == w[20..][..|data|] == data;
  }

  /** A simple packet is on the first interface, cut to what that captures. */
  lemma SimplePacketIsRead(packet: Bytes, kept: nat, interfaces: seq<Interface>)
    requires Simple(packet, kept).Fits(interfaces)
    ensures var body := SimplePacketBody(packet, kept);
            ReadBody(3, body + Padding(body), interfaces) == Simple(packet, kept).Content(interfaces)
  {
    hide Le32;
    hide PutLe32;
    var body := SimplePacketBody(packet, kept);
    var pad := Padding(body);
    var w := body + pad;
    hide Padding;
    assert w == PutLe32(|packet|) + (packet[..kept] + pad);
    Le32Of(|packet|, packet[..kept] + pad);
    assert w[4..] == packet[..kept] + pad;
    if interfaces != [] {
      var n := Captured(interfaces[0], packet);
      assert w[4..4 + n] == w[4..][..n] == packet[..kept][..n];
      assert packet[..kept][..n] == packet[..n];
    }
    hide SimplePacketBody;
  }

  /** A record cut short is complained of, and so is an enhanced packet that its block does not hold. */
  lemma CutBodyIsComplained(i: Interface, id: uint32, time: Bytes, data: Bytes, original: uint32, packet: Bytes, n: nat,
                            interfaces: seq<Interface>)
    requires |time| == 8 && |data| < 0x1_0000_0000 && |packet| < 0x1_0000_0000
    ensures n < 8 ==> ReadBody(1, InterfaceBody(i, [])[..n], interfaces) == Content(interfaces, [Complain])
    ensures n < 20 + |data| ==>
              ReadBody(6, EnhancedPacketBody(id, time, data, original, [])[..n], interfaces)
              == Content(interfaces, [Complain])
    ensures n < 4 ==>
              ReadBody(3, SimplePacketBody(packet, |packet|)[..n], interfaces) == Content(interfaces, [Complain])
  {
    var body := EnhancedPacketBody(id, time, data, original, []);
    assert body + [] == body;
    EnhancedFields(body, id, time, data, original, [], []);
    hide EnhancedPacketBody;
    if 20 <= n < |body| {
      Le32Extends(body[..n], body[n..], 12);
      assert body[..n] + body[n..] == body;
    }
    hide Le32;
  }

  /** Of a simple packet its block may hold less than the interface captures, which is then all there is. */
  lemma CutSimpleIsRead(packet: Bytes, kept: nat, interfaces: seq<Interface>)
    requires kept <= |packet| < 0x1_0000_0000 && interfaces != []
    ensures ReadBody(3, SimplePacketBody(packet, kept), interfaces)
         == Content(interfaces,
                    [Deliver(interfaces[0].linktype, packet[..Min(kept, Captured(interfaces[0], packet))])])
  {
    hide Le32;
    hide PutLe32;
    var body, n := SimplePacketBody(packet, kept), Min(kept, Captured(interfaces[0], packet));
    Le32Of(|packet|, packet[..kept]);
    assert body[4..4 + n] == packet[..kept][..n] == packet[..n];
  }

  /** A walk takes one whole block, and goes on behind it. */
  lemma WalkTakes(block: Bytes, rest: Bytes, first: bool, interfaces: seq<Interface>)
    requires ReadBlock(block, first, interfaces).Block? && ReadBlock(block, first, interfaces).length == |block|
    ensures var content := ReadBlock(block, first, interfaces).content;
            var w := Walk(rest, false, content.interfaces);
            Walk(block + rest, first, interfaces) == Walked(content.items + w.items, w.failed)
  {
    BlockExtends(block, rest, first, interfaces);
    WalkStep(block + rest, first, interfaces);
    hide ReadBlock;
    hide Walk;
    assert (block + rest)[|block|..] == rest;
  }

  /** Every record is read as what it is. */
  lemma RecordIsRead(r: Record, interfaces: seq<Interface>)
    requires r.Fits(interfaces)
    ensures var block := r.Printed(interfaces);
            ReadBlock(block, false, interfaces) == Block(|block|, r.Content(interfaces))
  {
    hide ReadBlock;
    hide PrintBlock;
    match r {
      case Declare(i, options) =>
        PrintedBlockIsRead(1, InterfaceBody(i, options), interfaces);
        InterfaceIsRead(i, options, interfaces);
        hide ReadBody;
      case Enhanced(id, time, data, original, options) =>
        PrintedBlockIsRead(6, EnhancedPacketBody(id, time, data, original, options), interfaces);
        EnhancedPacketIsRead(id, time, data, original, options, interfaces);
        hide ReadBody;
      case Simple(packet, kept) =>
        PrintedBlockIsRead(3, SimplePacketBody(packet, kept), interfaces);
        SimplePacketIsRead(packet, kept, interfaces);
        hide ReadBody;
      case Other(kind, body) =>
        PrintedBlockIsRead(kind, body, interfaces);
    }
    hide InterfaceBody;
    hide EnhancedPacketBody;
    hide SimplePacketBody;
    hide Padding;
  }

  /** The interfaces known in the end. */
  function KnownAfter(interfaces: seq<Interface>, records: seq<Record>): seq<Interface>
    decreases |records|
  {
    if records == [] then interfaces else KnownAfter(records[0].Content(interfaces).interfaces, records[1..])
  }

  lemma {:induction false} RecordsAreRead(interfaces: seq<Interface>, records: seq<Record>, rest: Bytes)
    requires AllFit(interfaces, records)
    ensures var w := Walk(rest, false, KnownAfter(interfaces, records));
            Walk(PrintRecords(interfaces, records) + rest, false, interfaces)
            == Walked(RecordItems(interfaces, records) + w.items, w.failed)
    decreases |records|
  {
    hide ReadBlock;
    hide Walk;
    hide Record.Printed;
    hide Record.Content;
    hide Record.Fits;
    var after := Walk(rest, false, KnownAfter(interfaces, records));
    if records == [] {
      assert PrintRecords(interfaces, records) + rest == rest;
      assert RecordItems(interfaces, records) + after.items == after.items;
    } else {
      var content := records[0].Content(interfaces);
      var block, more := records[0].Printed(interfaces), PrintRecords(content.interfaces, records[1..]);
      var items := RecordItems(content.interfaces, records[1..]);
      assert PrintRecords(interfaces, records) == block + more;
      assert RecordItems(interfaces, records) == content.items + items;
      RecordIsRead(records[0], interfaces);
      WalkTakes(block, more + rest, false, interfaces);
      RecordsAreRead(content.interfaces, records[1..], rest);
      hide PrintRecords;
      hide RecordItems;
      Associates(block, more, rest);
      Associates(content.items, items, after.items);
    }
  }

  lemma SectionIsReadBack(s: Section, rest: Bytes, first: bool, known: seq<Interface>)
    requires s.Valid()
    ensures var w := Walk(rest, false, KnownAfter([], s.records));
            Walk(PrintSection(s) + rest, first, known) == Walked(s.Items() + w.items, w.failed)
  {
    hide PrintBlock;
    hide ReadBlock;
    hide Walk;
    hide PrintRecords;
    hide SectionHeaderBody;
    hide RecordItems;
    hide AllFit;
    var header, records := PrintBlock(0x0A0D0D0A, SectionHeaderBody(s.options)), PrintRecords([], s.records);
    PrintedSectionIsRead(s.options, first, known);
    assert PrintSection(s) == header + records;
    hide PrintSection;
    Associates(header, records, rest);
    WalkTakes(header, records + rest, first, known);
    RecordsAreRead([], s.records, rest);
    var w := Walk(records + rest, false, []);
    assert [] + w.items == w.items;
  }

  lemma {:induction false} SectionsAreRead(sections: seq<Section>, first: bool, known: seq<Interface>)
    requires forall i | 0 <= i < |sections| :: sections[i].Valid()
    ensures Walk(PrintFile(sections), first, known) == Walked(AllItems(sections), false)
    decreases |sections|
  {
    if sections == [] {
    } else {
      SectionsAreRead(sections[1..], false, KnownAfter([], sections[0].records));
      SectionIsReadBack(sections[0], PrintFile(sections[1..]), first, known);
    }
  }

  /** Any number of printed sections, each with its own interfaces, are read back record by record. */
  lemma RoundTrip(sections: seq<Section>)
    requires forall i | 0 <= i < |sections| :: sections[i].Valid()
    ensures File(PrintFile(sections)) == Walked(AllItems(sections), false)
  {
    SectionsAreRead(sections, true, []);
    hide Walk;
    hide PrintFile;
  }

  // ---- Exactly the printed blocks are read ----

  /** A block, whole and in front; the first is a section header, and a section header is in this byte order. */
  predicate InFront(rest: Bytes, first: bool, kind: uint32, body: Bytes) {
    && FitsBlock(body) && |body| % 4 == 0 && PrintBlock(kind, body) <= rest
    && (first ==> kind == 0x0A0D0D0A) && (kind == 0x0A0D0D0A ==> InOrder(rest))
  }

  /** Room for a section header, with the byte order mark of a little endian file. */
  predicate InOrder(rest: Bytes) {
    |rest| >= 24 && rest[8..12] == [0x4D, 0x3C, 0x2B, 0x1A]
  }

  lemma MagicTells(rest: Bytes)
    requires |rest| >= 12
    ensures Le32(rest[8..]) == 0x1A2B3C4D <==> rest[8..12] == [0x4D, 0x3C, 0x2B, 0x1A]
  {
    hide Le32;
    Le32Prefix(rest[8..]);
    assert rest[8..][..4] == rest[8..12];
    Le32OfDigits(0x4D, 0x3C, 0x2B, 0x1A);
    PutLe32OfLe32(rest[8..12]);
    PutLe32OfLe32([0x4D, 0x3C, 0x2B, 0x1A]);
  }

  lemma NoPadding(body: Bytes)
    requires |body| % 4 == 0
    ensures Padding(body) == []
  {
  }

  /** What is framed is a printed block. */
  lemma FramedIsPrinted(rest: Bytes)
    requires |rest| >= 12 && Framed(rest).Some?
    ensures var length := Framed(rest).value;
            && FitsBlock(rest[8..length - 4]) && (length - 12) % 4 == 0
            && rest[..length] == PrintBlock(Le32(rest), rest[8..length - 4])
  {
    hide Le32;
    hide PutLe32;
    var length := Framed(rest).value;
    var body := rest[8..length - 4];
    assert |body| == length - 12 && |body| % 4 == 0;
    NoPadding(body);
    hide Padding;
    assert body + [] == body;
    Le32Prefix(rest);
    Le32Prefix(rest[4..]);
    Le32Prefix(rest[length - 4..]);
    assert rest[4..][..4] == rest[4..8] && rest[length - 4..][..4] == rest[length - 4..length];
    PutLe32OfLe32(rest[..4]);
    PutLe32OfLe32(rest[4..8]);
    PutLe32OfLe32(rest[length - 4..length]);
    assert rest[..length] == rest[..4] + (rest[4..8] + (body + rest[length - 4..length]));
  }

  /** What is printed is framed, whatever follows. */
  lemma PrintedStaysFramed(rest: Bytes, kind: uint32, body: Bytes)
    requires FitsBlock(body) && |body| % 4 == 0 && PrintBlock(kind, body) <= rest
    ensures |rest| >= 12 && Framed(rest) == Some(12 + |body|) && Le32(rest) == kind
    ensures rest[8..8 + |body|] == body
  {
    hide Le32;
    hide PutLe32;
    var block := PrintBlock(kind, body);
    PrintedFields(kind, body);
    PrintedIsFramed(kind, body);
    NoPadding(body);
    assert body + [] == body;
    hide Padding;
    hide PrintBlock;
    assert block + rest[|block|..] == rest;
    FramedExtends(block, rest[|block|..]);
    assert rest[0..] == rest && block[0..] == block;
    Le32Extends(block, rest[|block|..], 0);
    assert rest[8..8 + |body|] == block[8..|block| - 4];
  }

  /** A block is read exactly when a printed one is in front, and then as what it holds, on the interfaces of its
      section. Otherwise the walk ends: with an error at the start of the file, or at a section header that is cut or in
      another byte order, and with a complaint elsewhere. */
  lemma BlockIsPrinted(rest: Bytes, first: bool, interfaces: seq<Interface>, kind: uint32, body: Bytes)
    requires InFront(rest, first, kind, body) || forall k, b :: !InFront(rest, first, k, b)
    ensures ReadBlock(rest, first, interfaces)
         == if InFront(rest, first, kind, body)
            then Block(12 + |body|, ReadBody(kind, body, if kind == 0x0A0D0D0A then [] else interfaces))
            else Stop(|rest| >= 12 && (first || (Le32(rest) == 0x0A0D0D0A && !InOrder(rest))))
  {
    hide Le32;
    hide ReadBody;
    hide Framed;
    hide PrintBlock;
    if |rest| >= 12 { MagicTells(rest); }
    if InFront(rest, first, kind, body) {
      PrintedStaysFramed(rest, kind, body);
    } else if |rest| >= 12 && Framed(rest).Some? {
      FramedIsPrinted(rest);
      var length := Framed(rest).value;
      assert PrintBlock(Le32(rest), rest[8..length - 4]) <= rest;
      assert !InFront(rest, first, Le32(rest), rest[8..length - 4]);
    }
  }
}

/** Bulk transfers, and what is put in them: TCP segments in usbmux packets, one after the other, cut anyhow. */
module UsbMuxWire {
  import opened Wire
  import opened MuxStream
  import opened UsbMux
  import opened InterfaceExperts
  import opened UsbMuxFraming
  import opened UsbMuxHistory

  // ---- Transfers in, packets out ----

  /** A bulk transfer, and a packet, with the direction it travelled in. */
  datatype Transfer = Transfer(outbound: bool, data: Bytes)
  datatype Sent = Sent(outbound: bool, packet: Packet)

  const START: Demux := Demux(EMPTY, 0, [], [], QUIET)

  lemma EmptyIsLinked()
    ensures EMPTY.Linked()
  {
  }

  /** The demultiplexer after a list of transfers. */
  ghost function FeedTransfers(decode: Decoder, transfers: seq<Transfer>): (s: Demux)
    ensures s.table.Linked()
    decreases |transfers|
  {
    EmptyIsLinked();
    if transfers == [] then START
    else
      var last := transfers[|transfers| - 1];
      FeedDemux(decode, FeedTransfers(decode, transfers[..|transfers| - 1]), last.outbound, last.data)
  }

  function Tag(outbound: bool, packets: seq<Packet>): seq<Sent>
    decreases |packets|
  {
    if packets == [] then []
    else Tag(outbound, packets[..|packets| - 1]) + [Sent(outbound, packets[|packets| - 1])]
  }

  function ChunksOf(transfers: seq<Transfer>, outbound: bool): seq<Bytes>
    decreases |transfers|
  {
    if transfers == [] then []
    else
      var before := ChunksOf(transfers[..|transfers| - 1], outbound);
      var last := transfers[|transfers| - 1];
      if last.outbound == outbound then before + [last.data] else before
  }

  /** The packets of both directions, in the order in which transfers complete them. */
  function Completed(transfers: seq<Transfer>): seq<Sent>
    decreases |transfers|
  {
    if transfers == [] then []
    else
      var init, last := transfers[..|transfers| - 1], transfers[|transfers| - 1];
      var buffer := FeedAll([], ChunksOf(init, last.outbound)).buffer;
      Completed(init) + Tag(last.outbound, Feed(buffer, last.data).packets)
  }

  function PacketsOf(sent: seq<Sent>, outbound: bool): seq<Packet>
    decreases |sent|
  {
    if sent == [] then []
    else
      var before := PacketsOf(sent[..|sent| - 1], outbound);
      var last := sent[|sent| - 1];
      if last.outbound == outbound then before + [last.packet] else before
  }

  ghost function ApplySent(decode: Decoder, sent: seq<Sent>): (t: Table)
    ensures t.Linked()
    decreases |sent|
  {
    EmptyIsLinked();
    if sent == [] then EMPTY
    else
      var before := ApplySent(decode, sent[..|sent| - 1]);
      var last := sent[|sent| - 1];
      ApplyPacketIsLinked(decode, before, last.outbound, last.packet);
      ApplyPacket(decode, before, last.outbound, last.packet)
  }

  lemma {:induction false} FeedAllAppend(buffer: Bytes, chunks: seq<Bytes>, last: Bytes)
    ensures var before := FeedAll(buffer, chunks);
            FeedAll(buffer, chunks + [last]) == Join(before, Feed(before.buffer, last))
    decreases |chunks|
  {
    hide Feed;
    if chunks == [] {
      assert chunks + [last] == [last] && [last][1..] == [];
      var one := Feed(buffer, last);
      assert one.packets + [] == one.packets && [] + one.packets == one.packets;
    } else {
      assert (chunks + [last])[1..] == chunks[1..] + [last];
      var first := Feed(buffer, chunks[0]);
      FeedAllAppend(first.buffer, chunks[1..], last);
      var rest := FeedAll(first.buffer, chunks[1..]);
      Associates(first.packets, rest.packets, Feed(rest.buffer, last).packets);
    }
  }

  lemma {:induction false} PacketsOfTagged(sent: seq<Sent>, from: bool, packets: seq<Packet>, outbound: bool)
    ensures PacketsOf(sent + Tag(from, packets), outbound)
         == PacketsOf(sent, outbound) + if from == outbound then packets else []
    decreases |packets|
  {
    if packets == [] {
      assert sent + Tag(from, packets) == sent;
    } else {
      var init := packets[..|packets| - 1];
      var last := packets[|packets| - 1];
      var whole := sent + Tag(from, packets);
      assert whole == (sent + Tag(from, init)) + [Sent(from, last)];
      assert whole[..|whole| - 1] == sent + Tag(from, init);
      assert packets == init + [last];
      PacketsOfTagged(sent, from, init, outbound);
    }
  }

  lemma {:induction false} ApplyPacketsAppend(decode: Decoder, t: Table, outbound: bool, packets: seq<Packet>,
                                              last: Packet)
    requires t.Linked()
    ensures ApplyPackets(decode, t, outbound, packets + [last])
         == ApplyPacket(decode, ApplyPackets(decode, t, outbound, packets), outbound, last)
    decreases |packets|
  {
    hide ApplyPacket;
    hide Table.Linked;
    if packets == [] {
      assert packets + [last] == [last] && [last][1..] == [];
      ApplyPacketIsLinked(decode, t, outbound, last);
    } else {
      assert (packets + [last])[1..] == packets[1..] + [last];
      ApplyPacketIsLinked(decode, t, outbound, packets[0]);
      ApplyPacketsAppend(decode, ApplyPacket(decode, t, outbound, packets[0]), outbound, packets[1..], last);
    }
  }

  lemma {:induction false} ApplyTagged(decode: Decoder, sent: seq<Sent>, outbound: bool, packets: seq<Packet>)
    ensures ApplySent(decode, sent + Tag(outbound, packets))
         == ApplyPackets(decode, ApplySent(decode, sent), outbound, packets)
    decreases |packets|
  {
    hide ApplyPacket;
    hide Table.Linked;
    if packets == [] {
      assert sent + Tag(outbound, packets) == sent;
    } else {
      var init := packets[..|packets| - 1];
      var last := packets[|packets| - 1];
      var whole := sent + Tag(outbound, packets);
      assert whole == (sent + Tag(outbound, init)) + [Sent(outbound, last)];
      assert whole[..|whole| - 1] == sent + Tag(outbound, init);
      assert packets == init + [last];
      ApplyTagged(decode, sent, outbound, init);
      ApplyPacketsAppend(decode, ApplySent(decode, sent), outbound, init, last);
    }
  }

  /** The two directions only meet in the order of their packets; each is reassembled from its own transfers. */
  lemma {:induction false} TransfersAreReassembled(decode: Decoder, transfers: seq<Transfer>)
    ensures var s, sent := FeedTransfers(decode, transfers), Completed(transfers);
            var ins, outs := FeedAll([], ChunksOf(transfers, false)), FeedAll([], ChunksOf(transfers, true));
            && s.table == ApplySent(decode, sent)
            && s.inn == ins.buffer && s.out == outs.buffer && s.resyncs == ins.resyncs + outs.resyncs
            && PacketsOf(sent, false) == ins.packets && PacketsOf(sent, true) == outs.packets
    decreases |transfers|
  {
    if transfers == [] {
    } else {
      var init, last := transfers[..|transfers| - 1], transfers[|transfers| - 1];
      TransfersAreReassembled(decode, init);
      var buffer := FeedAll([], ChunksOf(init, last.outbound)).buffer;
      var packets := Feed(buffer, last.data).packets;
      FeedAllAppend([], ChunksOf(init, last.outbound), last.data);
      ApplyTagged(decode, Completed(init), last.outbound, packets);
      PacketsOfTagged(Completed(init), last.outbound, packets, false);
      PacketsOfTagged(Completed(init), last.outbound, packets, true);
      var others := PacketsOf(Completed(init), !last.outbound);
      assert others + [] == others;
      hide Feed;
      hide FeedAll;
      hide ApplyPackets;
      hide ApplySent;
      hide PacketsOf;
      hide Table.Linked;
    }
  }

  /** The packet tells a protocol version. */
  predicate TellsVersion(s: Sent) {
    s.packet.protocol == 0 && |s.packet.payload| >= 4
  }

  /** The version known is the one told last. */
  lemma {:induction false} VersionIsLast(decode: Decoder, sent: seq<Sent>, k: int)
    requires -1 <= k < |sent| && (k >= 0 ==> TellsVersion(sent[k]))
    requires forall j | k < j < |sent| :: !TellsVersion(sent[j])
    ensures ApplySent(decode, sent).version == if k < 0 then 0 else Be32(sent[k].packet.payload)
    decreases |sent|
  {
    hide Table.Linked;
    hide ApplySegment;
    hide Be32;
    if sent == [] {
    } else {
      var init, last := sent[..|sent| - 1], sent[|sent| - 1];
      SegmentKeepsVersion(decode, ApplySent(decode, init), last);
      if k < |sent| - 1 { VersionIsLast(decode, init, k); }
    }
  }

  lemma SegmentKeepsVersion(decode: Decoder, t: Table, s: Sent)
    requires t.Linked()
    ensures ApplyPacket(decode, t, s.outbound, s.packet).version
         == if TellsVersion(s) then Be32(s.packet.payload) else t.version
  {
    hide Be32;
    hide Table.Linked;
    hide ParseSegment;
  }

  function BytesIn(transfers: seq<Transfer>): nat
    decreases |transfers|
  {
    if transfers == [] then 0 else BytesIn(transfers[..|transfers| - 1]) + |transfers[|transfers| - 1].data|
  }

  /** Every transfer is counted, with its bytes. */
  lemma {:induction false} TransfersAreCounted(decode: Decoder, transfers: seq<Transfer>)
    ensures FeedTransfers(decode, transfers).traffic == Traffic(0, 0, |transfers|, BytesIn(transfers))
    decreases |transfers|
  {
    hide Feed;
    hide ApplyPackets;
    if transfers == [] {
    } else {
      TransfersAreCounted(decode, transfers[..|transfers| - 1]);
    }
  }

  // ---- Segments ----

  type Nibble = n: int | 0 <= n < 0x10
  type SixBits = n: int | 0 <= n < 0x40

  /** The fields of a TCP segment that are not read back, and its options. */
  datatype SegmentFields = SegmentFields(
    sequence: uint32, acknowledgement: uint32, offset: Nibble, reserved: SixBits, window: uint16, check: uint16,
    urgent: uint16, options: Bytes)

  /** Six flag bits, and options as long as the data offset says; an offset out of bounds counts as none. */
  predicate Readable(s: Segment, fields: SegmentFields) {
    && s.flags < 0x40
    && |fields.options| ==
         if 20 <= fields.offset * 4 <= 20 + |fields.options| + |s.data| then fields.offset * 4 - 20 else 0
  }

  function OffsetWord(s: Segment, fields: SegmentFields): uint16 {
    fields.offset * 0x1000 + fields.reserved * 0x40 + s.flags % 0x40
  }

  function SegmentBytes(s: Segment, fields: SegmentFields): Bytes {
    PutBe16(s.source) + PutBe16(s.destination) + PutBe32(fields.sequence) + PutBe32(fields.acknowledgement)
    + PutBe16(OffsetWord(s, fields))
    + PutBe16(fields.window) + PutBe16(fields.check) + PutBe16(fields.urgent) + (fields.options + s.data)
  }

  /** A printed segment is read back. */
  lemma ReadSegment(s: Segment, fields: SegmentFields)
    requires Readable(s, fields)
    ensures ParseSegment(SegmentBytes(s, fields)) == Some(s)
  {
    var w, n := SegmentBytes(s, fields), |fields.options|;
    SegmentFieldsAt(s, fields);
    hide SegmentBytes;
    OffsetAndFlags(s, fields);
    hide OffsetWord;
    hide Be16;
    var rest := fields.options + s.data;
    assert rest[n..] == s.data;
    assert w[TCP_HEADER + n..] == w[TCP_HEADER..][n..];
  }

  lemma OffsetAndFlags(s: Segment, fields: SegmentFields)
    requires s.flags < 0x40
    ensures OffsetWord(s, fields) % 0x40 == s.flags && OffsetWord(s, fields) / 0x1000 == fields.offset
  {
  }

  /** Every field of a printed segment is where its reader looks for it. */
  lemma SegmentFieldsAt(s: Segment, fields: SegmentFields)
    ensures var w := SegmentBytes(s, fields);
            && |w| == TCP_HEADER + |fields.options| + |s.data| && w[TCP_HEADER..] == fields.options + s.data
            && Be16(w) == s.source && Be16(w[2..]) == s.destination && Be16(w[12..]) == OffsetWord(s, fields)
  {
    hide Be16;
    hide PutBe16;
    hide PutBe32;
    hide OffsetWord;
    var word := OffsetWord(s, fields);
    var rest := PutBe16(fields.window) + PutBe16(fields.check) + PutBe16(fields.urgent);
    var r14 := rest + (fields.options + s.data);
    var r12 := PutBe16(word) + r14;
    var r4 := PutBe32(fields.sequence) + PutBe32(fields.acknowledgement) + r12;
    var r2 := PutBe16(s.destination) + r4;
    var w := SegmentBytes(s, fields);
    assert w == PutBe16(s.source) + r2;
    hide SegmentBytes;
    assert w[0..] == w;
    Next(w, 0, PutBe16(s.source), r2);
    Next(w, 2, PutBe16(s.destination), r4);
    Next(w, 4, PutBe32(fields.sequence) + PutBe32(fields.acknowledgement), r12);
    Next(w, 12, PutBe16(word), r14);
    Next(w, 14, rest, fields.options + s.data);
    Be16Of(s.source, r2);
    Be16Of(s.destination, r4);
    Be16Of(word, r14);
  }

  // ---- Packets on the wire ----

  /** What a packet is made of: a TCP segment, or something that is none. */
  datatype Cargo = Tcp(segment: Segment, fields: SegmentFields) | Other(packet: Packet) {
    predicate Valid() {
      match this
      case Tcp(segment, fields) => Readable(segment, fields)
      case Other(packet) => packet.protocol != 6 || |packet.payload| < 20
    }

    function Packed(): Packet {
      if Tcp? then Packet(6, SegmentBytes(segment, fields)) else packet
    }
  }

  /** A packet as it is put on the wire, with a header of either version. The sequence numbers of the newer one are not
      read back, so they may be anything. */
  datatype Wired =
    | V1(outbound: bool, cargo: Cargo)
    | V2(outbound: bool, cargo: Cargo, txSeq: uint16, rxSeq: uint16)
  {
    function Packed(): Packet { cargo.Packed() }

    /** The packet fits its header, and a short header is not taken for a long one. */
    predicate CanPrint() {
      && cargo.Valid()
      && if V1? then Printable(8, Packed().protocol, Packed().payload) && !PosesAsV2(Packed().payload)
         else Printable(16, Packed().protocol, Packed().payload)
    }

    function Encoded(): (w: Bytes)
      requires CanPrint()
      ensures |w| >= MUX_HEADER_V1
    {
      if V1? then V1Packet(Packed().protocol, Packed().payload)
      else V2Packet(Packed().protocol, Packed().payload, outbound, txSeq, rxSeq)
    }
  }

  predicate CanPrint(wire: seq<Wired>) {
    forall i | 0 <= i < |wire| :: wire[i].CanPrint()
  }

  /** The bytes of one direction. */
  function Print(wire: seq<Wired>, outbound: bool): Bytes
    requires CanPrint(wire)
    decreases |wire|
  {
    if wire == [] then []
    else
      var before, last := Print(wire[..|wire| - 1], outbound), wire[|wire| - 1];
      if last.outbound == outbound then before + last.Encoded() else before
  }

  function SentOf(wire: seq<Wired>): (sent: seq<Sent>)
    ensures |sent| == |wire|
    decreases |wire|
  {
    if wire == [] then []
    else SentOf(wire[..|wire| - 1]) + [Sent(wire[|wire| - 1].outbound, wire[|wire| - 1].Packed())]
  }

  /** The packets of one direction. */
  function Side(wire: seq<Wired>, outbound: bool): seq<Packet>
    decreases |wire|
  {
    if wire == [] then []
    else
      var before, last := Side(wire[..|wire| - 1], outbound), wire[|wire| - 1];
      if last.outbound == outbound then before + [last.Packed()] else before
  }

  lemma ReadWired(w: Wired)
    requires w.CanPrint()
    ensures ReadPacket(w.Encoded() + []) == Whole(w.Packed(), [])
  {
    var p := w.Packed();
    if w.V1? { ReadV1Packet(p.protocol, p.payload, []); }
    else { ReadV2Packet(p.protocol, p.payload, w.outbound, w.txSeq, w.rxSeq, []); }
    hide V1Packet;
    hide V2Packet;
    hide ReadPacket;
    hide PosesAsV2;
  }

  lemma ReassembleOne(w: Wired)
    requires w.CanPrint()
    ensures Reassemble(w.Encoded()) == Reassembled([w.Packed()], [], [])
  {
    ReadWired(w);
    hide ReadPacket;
    hide Wired.Encoded;
    assert w.Encoded() + [] == w.Encoded();
    EmptyReassembly();
  }

  lemma EmptyReassembly()
    ensures Reassemble([]) == Reassembled([], [], [])
  {
  }

  lemma {:induction false} ReassemblePrinted(wire: seq<Wired>, outbound: bool)
    requires CanPrint(wire)
    ensures Reassemble(Print(wire, outbound)) == Reassembled(Side(wire, outbound), [], [])
    decreases |wire|
  {
    hide Reassemble;
    hide Wired.Encoded;
    EmptyReassembly();
    if wire == [] {
    } else {
      var init, last := wire[..|wire| - 1], wire[|wire| - 1];
      assert CanPrint(init) && last.CanPrint();
      ReassemblePrinted(init, outbound);
      if last.outbound == outbound {
        ReassembleOne(last);
        ReassemblyResumes(Print(init, outbound), last.Encoded());
        assert [] + last.Encoded() == last.Encoded();
      }
    }
  }

  /** Printed packets survive every cut into transfers. */
  lemma PrintedIsFed(wire: seq<Wired>, outbound: bool, chunks: seq<Bytes>)
    requires CanPrint(wire) && Flat(chunks) == Print(wire, outbound)
    ensures FeedAll([], chunks) == Fed(Side(wire, outbound), [], 0)
  {
    var w := Print(wire, outbound);
    ReassemblePrinted(wire, outbound);
    ChunkInvariance(w);
    assert [] + w == w;
    hide Reassemble;
    hide FeedAll;
    hide Print;
    EmptyReassembly();
  }

  /** The segments among the packets of both directions. */
  function Arrivals(sent: seq<Sent>): History
    decreases |sent|
  {
    if sent == [] then []
    else
      var before := Arrivals(sent[..|sent| - 1]);
      var last := sent[|sent| - 1];
      var parsed := ParseSegment(last.packet.payload);
      if last.packet.protocol == MUX_PROTO_TCP && parsed.Some?
      then before + [Arrival(last.outbound, parsed.value)] else before
  }

  /** The segments put on the wire. */
  function SegmentsOf(wire: seq<Wired>): History
    decreases |wire|
  {
    if wire == [] then []
    else
      var before, last := SegmentsOf(wire[..|wire| - 1]), wire[|wire| - 1];
      if last.cargo.Tcp? then before + [Arrival(last.outbound, last.cargo.segment)] else before
  }

  /** A packet is read as a segment exactly when one was put in. */
  lemma CargoIsRead(cargo: Cargo)
    requires cargo.Valid()
    ensures var packet := cargo.Packed();
            if cargo.Tcp? then packet.protocol == MUX_PROTO_TCP && ParseSegment(packet.payload) == Some(cargo.segment)
            else packet.protocol == MUX_PROTO_TCP ==> ParseSegment(packet.payload) == None
  {
    if cargo.Tcp? { ReadSegment(cargo.segment, cargo.fields); }
    hide SegmentBytes;
  }

  /** The segments read are those put on the wire. */
  lemma {:induction false} SegmentsAreRead(wire: seq<Wired>)
    requires CanPrint(wire)
    ensures Arrivals(SentOf(wire)) == SegmentsOf(wire)
    decreases |wire|
  {
    hide Cargo.Packed;
    hide ParseSegment;
    hide Wired.CanPrint;
    if wire == [] {
    } else {
      var init, last := wire[..|wire| - 1], wire[|wire| - 1];
      assert last.CanPrint();
      PrintableCargo(last);
      assert CanPrint(init) && SentOf(wire)[..|wire| - 1] == SentOf(init);
      SegmentsAreRead(init);
      CargoIsRead(last.cargo);
    }
  }

  lemma PrintableCargo(w: Wired)
    requires w.CanPrint()
    ensures w.cargo.Valid()
  {
  }

  predicate SameStreams(a: Table, b: Table) {
    a.index == b.index && a.streams == b.streams && a.names == b.names
  }

  lemma ApplySegmentIgnoresVersion(decode: Decoder, a: Table, b: Table, outbound: bool, segment: Segment)
    requires a.Linked() && b.Linked() && SameStreams(a, b)
    ensures SameStreams(ApplySegment(decode, a, outbound, segment), ApplySegment(decode, b, outbound, segment))
  {
    hide Received;
    hide Learned;
    hide StreamId;
    hide StreamPort;
    hide Table.Linked;
  }

  /** Only the segments matter to the streams. */
  lemma {:induction false} SentIsHistory(decode: Decoder, sent: seq<Sent>)
    ensures SameStreams(ApplySent(decode, sent), Run(decode, Arrivals(sent)))
    decreases |sent|
  {
    hide ApplySegment;
    hide ParseSegment;
    hide Table.Linked;
    hide Be32;
    if sent == [] {
    } else {
      var init, last := sent[..|sent| - 1], sent[|sent| - 1];
      SentIsHistory(decode, init);
      var parsed := ParseSegment(last.packet.payload);
      if last.packet.protocol == MUX_PROTO_TCP && parsed.Some? {
        var a := Arrival(last.outbound, parsed.value);
        var h := Arrivals(init) + [a];
        assert Before(h) == Arrivals(init) && Latest(h) == a;
        ApplySegmentIgnoresVersion(
          decode, ApplySent(decode, init), Run(decode, Arrivals(init)), last.outbound, parsed.value);
      }
    }
  }

  // ---- End to end ----

  /** What a device and its host put on the wire, and the transfers a capture has of it: each direction holds the bytes
      of its packets, cut anyhow. */
  ghost predicate Carries(transfers: seq<Transfer>, wire: seq<Wired>) {
    && CanPrint(wire)
    && Flat(ChunksOf(transfers, true)) == Print(wire, true)
    && Flat(ChunksOf(transfers, false)) == Print(wire, false)
  }

  lemma CarriedIsRead(transfers: seq<Transfer>, wire: seq<Wired>)
    requires Carries(transfers, wire)
    ensures Arrivals(SentOf(wire)) == SegmentsOf(wire)
  {
    SegmentsAreRead(wire);
  }

  /** However the wire is cut, nothing is lost, left over or reordered within a direction, and the streams are those
      of the segments sent. */
  lemma WireIsDemultiplexed(decode: Decoder, transfers: seq<Transfer>, wire: seq<Wired>)
    requires Carries(transfers, wire)
    ensures var s, sent := FeedTransfers(decode, transfers), Completed(transfers);
            && s.inn == [] && s.out == [] && s.resyncs == 0
            && PacketsOf(sent, true) == Side(wire, true) && PacketsOf(sent, false) == Side(wire, false)
            && SameStreams(s.table, Run(decode, Arrivals(sent)))
  {
    TransfersAreReassembled(decode, transfers);
    PrintedIsFed(wire, true, ChunksOf(transfers, true));
    PrintedIsFed(wire, false, ChunksOf(transfers, false));
    SentIsHistory(decode, Completed(transfers));
    hide FeedTransfers;
    hide FeedAll;
    hide Print;
    hide ApplySent;
    hide Run;
  }

  // ---- The order in which packets complete ----

  function Size(transfers: seq<Transfer>, outbound: bool): nat {
    |Flat(ChunksOf(transfers, outbound))|
  }

  /** The transfers bring all of the packet. */
  predicate Bring(transfers: seq<Transfer>, wire: seq<Wired>, i: nat)
    requires CanPrint(wire) && i < |wire|
  {
    |Print(wire[..i + 1], wire[i].outbound)| <= Size(transfers, wire[i].outbound)
  }

  /** The wire lists the packets of both directions in the order in which their last bytes come. */
  predicate InOrder(transfers: seq<Transfer>, wire: seq<Wired>)
    requires CanPrint(wire)
  {
    forall n: nat, i: nat, j: nat | n <= |transfers| && i < j < |wire| ::
      Bring(transfers[..n], wire, j) ==> Bring(transfers[..n], wire, i)
  }

  /** The packets up to k are those brought. */
  predicate BringsUpTo(transfers: seq<Transfer>, wire: seq<Wired>, k: nat)
    requires CanPrint(wire)
  {
    k <= |wire| && forall i: nat | i < |wire| :: Bring(transfers, wire, i) <==> i < k
  }

  lemma {:induction false} Boundary(transfers: seq<Transfer>, wire: seq<Wired>, n: nat) returns (k: nat)
    requires CanPrint(wire) && n <= |wire|
    requires forall i: nat, j: nat | i < j < |wire| :: Bring(transfers, wire, j) ==> Bring(transfers, wire, i)
    requires forall i: nat | n <= i < |wire| :: !Bring(transfers, wire, i)
    ensures BringsUpTo(transfers, wire, k)
    decreases n
  {
    hide Bring;
    if n == 0 || Bring(transfers, wire, n - 1) {
      k := n;
    } else {
      k := Boundary(transfers, wire, n - 1);
    }
  }

  lemma EncodedIsFrame(w: Wired)
    requires w.CanPrint()
    ensures IsFrame(w.Encoded())
  {
    ReadWired(w);
    assert w.Encoded() + [] == w.Encoded();
    FrameLength(w.Encoded());
    hide ReadPacket;
    hide Wired.Encoded;
    hide PlausibleHeader;
  }

  lemma FrontOfFrame(e: Bytes, q: Bytes)
    requires IsFrame(e) && q <= e && |q| < |e|
    ensures ReadPacket(q) == Wait
  {
    hide Be32;
    hide IsMagic;
    if |q| >= MUX_HEADER_V1 {
      assert q + e[|q|..] == e;
      HeaderExtends(q, e[|q|..], 0);
      HeaderExtends(q, e[|q|..], 4);
      assert q[0..] == q && e[0..] == e;
    }
  }

  /** The front of a packet is waited on. */
  lemma FrontWaits(w: Wired, q: Bytes)
    requires w.CanPrint() && q <= w.Encoded() && |q| < |w.Encoded()|
    ensures Reassemble(q) == Reassembled([], q, [])
  {
    EncodedIsFrame(w);
    FrontOfFrame(w.Encoded(), q);
    hide ReadPacket;
    hide IsFrame;
    hide Wired.Encoded;
  }

  lemma {:induction false} PrintGrows(wire: seq<Wired>, k: nat, outbound: bool)
    requires CanPrint(wire) && k <= |wire|
    ensures |Print(wire[..k], outbound)| <= |Print(wire, outbound)|
    decreases |wire|
  {
    hide Wired.Encoded;
    if k == |wire| {
      assert wire[..k] == wire;
    } else {
      var init := wire[..|wire| - 1];
      assert init[..k] == wire[..k];
      PrintGrows(init, k, outbound);
    }
  }

  /** Between the packets before it and its end, a packet is the one that is waited on. */
  lemma FrontOfLast(wire: seq<Wired>, outbound: bool, p: Bytes)
    requires wire != [] && CanPrint(wire) && p <= Print(wire, outbound) && wire[|wire| - 1].outbound == outbound
    requires |Print(wire[..|wire| - 1], outbound)| < |p| < |Print(wire, outbound)|
    ensures Reassemble(p).packets == Side(wire[..|wire| - 1], outbound) && Reassemble(p).discarded == []
  {
    hide Reassemble;
    hide Wired.Encoded;
    var init, last := wire[..|wire| - 1], wire[|wire| - 1];
    var front := Print(init, outbound);
    var q := p[|front|..];
    assert p == front + q && q <= last.Encoded();
    ReassemblePrinted(init, outbound);
    FrontWaits(last, q);
    ReassemblyResumes(front, q);
    assert [] + q == q;
    assert Side(init, outbound) + [] == Side(init, outbound);
    hide Print;
  }

  /** Packets beyond k of the other direction add nothing. */
  lemma {:induction false} SideStays(wire: seq<Wired>, outbound: bool, k: nat)
    requires k <= |wire| && forall i: nat | k <= i < |wire| :: wire[i].outbound != outbound
    ensures Side(wire, outbound) == Side(wire[..k], outbound)
    decreases |wire|
  {
    if k == |wire| {
      assert wire[..k] == wire;
    } else {
      assert wire[..|wire| - 1][..k] == wire[..k];
      SideStays(wire[..|wire| - 1], outbound, k);
    }
  }

  /** The packets of a direction from k on end behind its first n bytes. */
  predicate EndBehind(wire: seq<Wired>, outbound: bool, n: nat, k: nat)
    requires CanPrint(wire)
  {
    forall i: nat | k <= i < |wire| && wire[i].outbound == outbound :: |Print(wire[..i + 1], outbound)| > n
  }

  lemma EndBehindBefore(wire: seq<Wired>, outbound: bool, n: nat, k: nat)
    requires CanPrint(wire) && EndBehind(wire, outbound, n, k) && k < |wire|
    ensures EndBehind(wire[..|wire| - 1], outbound, n, k)
    ensures n >= |Print(wire[..|wire| - 1], outbound)| ==>
              forall i: nat | k <= i < |wire| - 1 :: wire[i].outbound != outbound
  {
    hide Wired.Encoded;
    hide Print;
    var init := wire[..|wire| - 1];
    forall i: nat | k <= i < |init| && init[i].outbound == outbound
      ensures |Print(init[..i + 1], outbound)| > n && n < |Print(init, outbound)|
    {
      assert init[..i + 1] == wire[..i + 1] && init[i] == wire[i];
      PrintGrows(init, i + 1, outbound);
    }
  }

  /** The first bytes of a direction hold the packets that end in them, and the front of another at most. */
  lemma {:induction false} ReassembleFront(wire: seq<Wired>, outbound: bool, p: Bytes, k: nat)
    requires CanPrint(wire) && k <= |wire| && p <= Print(wire, outbound)
    requires |Print(wire[..k], outbound)| <= |p| && EndBehind(wire, outbound, |p|, k)
    ensures Reassemble(p).packets == Side(wire[..k], outbound) && Reassemble(p).discarded == []
    decreases |wire|
  {
    hide Reassemble;
    hide Wired.Encoded;
    hide Side;
    if k == |wire| {
      assert wire[..k] == wire && p == Print(wire, outbound);
      ReassemblePrinted(wire, outbound);
    } else {
      var init, last := wire[..|wire| - 1], wire[|wire| - 1];
      assert init[..k] == wire[..k] && wire[..|wire| - 1 + 1] == wire;
      EndBehindBefore(wire, outbound, |p|, k);
      if last.outbound != outbound || |p| <= |Print(init, outbound)| {
        assert p <= Print(init, outbound);
        ReassembleFront(init, outbound, p, k);
      } else {
        assert |Print(wire, outbound)| > |p|;
        SideStays(init, outbound, k);
        FrontOfLast(wire, outbound, p);
      }
    }
    hide EndBehind;
  }

  /** Each direction holds no more than the bytes of its packets, cut anyhow. */
  ghost predicate Begins(transfers: seq<Transfer>, wire: seq<Wired>) {
    && CanPrint(wire)
    && Flat(ChunksOf(transfers, true)) <= Print(wire, true)
    && Flat(ChunksOf(transfers, false)) <= Print(wire, false)
  }

  lemma FedSoFar(transfers: seq<Transfer>, wire: seq<Wired>, k: nat, outbound: bool)
    requires Begins(transfers, wire) && BringsUpTo(transfers, wire, k)
    ensures FeedAll([], ChunksOf(transfers, outbound)).packets == Side(wire[..k], outbound)
  {
    hide FeedAll;
    hide Wired.Encoded;
    var p := Flat(ChunksOf(transfers, outbound));
    FrontFits(transfers, wire, k, outbound);
    forall i: nat | k <= i < |wire| && wire[i].outbound == outbound
      ensures |Print(wire[..i + 1], outbound)| > |p|
    {
      assert !Bring(transfers, wire, i);
    }
    assert EndBehind(wire, outbound, |p|, k);
    ReassembleFront(wire, outbound, p, k);
    hide Reassemble;
    ChunkInvariance(p);
    assert [] + p == p;
    EmptyReassembly();
  }

  lemma {:induction false} FrontFits(transfers: seq<Transfer>, wire: seq<Wired>, k: nat, outbound: bool)
    requires CanPrint(wire) && k <= |wire| && forall i: nat | i < k :: Bring(transfers, wire, i)
    ensures |Print(wire[..k], outbound)| <= Size(transfers, outbound)
    decreases k
  {
    hide Wired.Encoded;
    if k == 0 {
    } else {
      assert wire[..k][..k - 1] == wire[..k - 1];
      FrontFits(transfers, wire, k - 1, outbound);
      assert Bring(transfers, wire, k - 1);
    }
  }

  lemma {:induction false} SidesOnly(wire: seq<Wired>, k: nat, n: nat, outbound: bool)
    requires k <= n <= |wire| && forall i: nat | k <= i < n :: wire[i].outbound == outbound
    ensures Side(wire[..k], outbound) <= Side(wire[..n], outbound)
    ensures SentOf(wire[..n])
         == SentOf(wire[..k]) + Tag(outbound, Side(wire[..n], outbound)[|Side(wire[..k], outbound)|..])
    decreases n
  {
    if k == n {
      assert Side(wire[..n], outbound)[|Side(wire[..k], outbound)|..] == [];
      assert SentOf(wire[..k]) + [] == SentOf(wire[..k]);
    } else {
      assert wire[..n][..n - 1] == wire[..n - 1];
      SidesOnly(wire, k, n - 1, outbound);
      var last, m := wire[n - 1], |Side(wire[..k], outbound)|;
      var before := Side(wire[..n - 1], outbound)[m..];
      assert Side(wire[..n], outbound)[m..] == before + [last.Packed()];
      assert (before + [last.Packed()])[..|before|] == before;
      Associates(SentOf(wire[..k]), Tag(outbound, before), [Sent(outbound, last.Packed())]);
    }
  }

  lemma BeginsBefore(transfers: seq<Transfer>, wire: seq<Wired>)
    requires transfers != [] && Begins(transfers, wire) && InOrder(transfers, wire)
    ensures var init, last := transfers[..|transfers| - 1], transfers[|transfers| - 1];
            && Begins(init, wire) && InOrder(init, wire)
            && Size(init, last.outbound) <= Size(transfers, last.outbound)
            && Size(init, !last.outbound) == Size(transfers, !last.outbound)
  {
    hide Print;
    hide CanPrint;
    var init, last := transfers[..|transfers| - 1], transfers[|transfers| - 1];
    FlatAppend(ChunksOf(init, last.outbound), [last.data]);
    assert [last.data][1..] == [];
    assert Flat([last.data]) == last.data + Flat([last.data][1..]) == last.data;
    forall n: nat, i: nat, j: nat | n <= |init| && i < j < |wire|
      ensures Bring(init[..n], wire, j) ==> Bring(init[..n], wire, i)
    {
      assert init[..n] == transfers[..n];
    }
    hide Bring;
  }

  /** Packets complete in the order of the wire. */
  lemma {:induction false} CompletedSoFar(transfers: seq<Transfer>, wire: seq<Wired>) returns (k: nat)
    requires Begins(transfers, wire) && InOrder(transfers, wire)
    ensures BringsUpTo(transfers, wire, k) && Completed(transfers) == SentOf(wire[..k])
    decreases |transfers|
  {
    hide Wired.Encoded;
    hide Feed;
    hide FeedAll;
    assert transfers[..|transfers|] == transfers;
    k := Boundary(transfers, wire, |wire|);
    FedSoFar(transfers, wire, k, true);
    FedSoFar(transfers, wire, k, false);
    if transfers == [] {
      FrontFits(transfers, wire, k, true);
      FrontFits(transfers, wire, k, false);
      if k > 0 { SomethingPrinted(wire, k - 1); }
    } else {
      var init, last := transfers[..|transfers| - 1], transfers[|transfers| - 1];
      var o := last.outbound;
      BeginsBefore(transfers, wire);
      var before := CompletedSoFar(init, wire);
      FedSoFar(init, wire, before, o);
      BringsMore(transfers, wire, before, k);
      SidesOnly(wire, before, k, o);
      FeedAllAppend([], ChunksOf(init, o), last.data);
      var added := Feed(FeedAll([], ChunksOf(init, o)).buffer, last.data).packets;
      assert Side(wire[..k], o) == Side(wire[..before], o) + added;
      assert Side(wire[..k], o)[|Side(wire[..before], o)|..] == added;
      hide Side;
      hide Bring;
    }
  }

  lemma SomethingPrinted(wire: seq<Wired>, k: nat)
    requires CanPrint(wire) && k < |wire|
    ensures |Print(wire[..k + 1], wire[k].outbound)| > 0
  {
    var front := wire[..k + 1];
    assert front[..k] == wire[..k] && front[k] == wire[k];
    hide Wired.Encoded;
  }

  lemma StillBrought(init: seq<Transfer>, transfers: seq<Transfer>, wire: seq<Wired>, i: nat)
    requires CanPrint(wire) && i < |wire|
    requires Size(init, wire[i].outbound) <= Size(transfers, wire[i].outbound)
    ensures Bring(init, wire, i) ==> Bring(transfers, wire, i)
    ensures Size(init, wire[i].outbound) == Size(transfers, wire[i].outbound) ==>
              (Bring(transfers, wire, i) ==> Bring(init, wire, i))
  {
    hide Print;
    hide Size;
  }

  /** One more transfer only brings packets of its own direction. */
  lemma BringsMore(transfers: seq<Transfer>, wire: seq<Wired>, before: nat, k: nat)
    requires transfers != [] && CanPrint(wire)
    requires BringsUpTo(transfers[..|transfers| - 1], wire, before) && BringsUpTo(transfers, wire, k)
    requires var init, last := transfers[..|transfers| - 1], transfers[|transfers| - 1];
             && Size(init, last.outbound) <= Size(transfers, last.outbound)
             && Size(init, !last.outbound) == Size(transfers, !last.outbound)
    ensures before <= k && forall i: nat | before <= i < k :: wire[i].outbound == transfers[|transfers| - 1].outbound
  {
    hide Print;
    hide Size;
    hide Bring;
    hide CanPrint;
    var init, o := transfers[..|transfers| - 1], transfers[|transfers| - 1].outbound;
    if k < before { StillBrought(init, transfers, wire, k); }
    forall i: nat | before <= i < k
      ensures wire[i].outbound == o
    {
      if wire[i].outbound == !o { StillBrought(init, transfers, wire, i); }
    }
  }

  lemma AllBrought(transfers: seq<Transfer>, wire: seq<Wired>, i: nat)
    requires Carries(transfers, wire) && i < |wire|
    ensures Bring(transfers, wire, i)
  {
    PrintGrows(wire, i + 1, wire[i].outbound);
    hide Print;
  }

  /** Packets of both directions complete exactly as the wire lists them. */
  lemma CompletedInOrder(transfers: seq<Transfer>, wire: seq<Wired>)
    requires Carries(transfers, wire) && InOrder(transfers, wire)
    ensures Completed(transfers) == SentOf(wire)
  {
    hide InOrder;
    hide Print;
    hide Bring;
    var k := CompletedSoFar(transfers, wire);
    assert wire[..|wire|] == wire;
    if k < |wire| { AllBrought(transfers, wire, k); }
  }

  // ---- One packet after the other ----

  /** Every packet in a transfer of its own. */
  function OneByOne(wire: seq<Wired>): (transfers: seq<Transfer>)
    requires CanPrint(wire)
    ensures |transfers| == |wire|
    decreases |wire|
  {
    if wire == [] then []
    else OneByOne(wire[..|wire| - 1]) + [Transfer(wire[|wire| - 1].outbound, wire[|wire| - 1].Encoded())]
  }

  lemma {:induction false} OneByOneTake(wire: seq<Wired>, n: nat)
    requires CanPrint(wire) && n <= |wire|
    ensures OneByOne(wire)[..n] == OneByOne(wire[..n])
    decreases |wire|
  {
    hide Wired.Encoded;
    if n == |wire| {
      assert wire[..n] == wire && OneByOne(wire)[..n] == OneByOne(wire);
    } else {
      var init := wire[..|wire| - 1];
      OneByOneTake(init, n);
      assert init[..n] == wire[..n] && OneByOne(wire)[..n] == OneByOne(init)[..n];
    }
  }

  lemma ChunksMore(transfers: seq<Transfer>, last: Transfer, outbound: bool)
    ensures Flat(ChunksOf(transfers + [last], outbound))
         == Flat(ChunksOf(transfers, outbound)) + if last.outbound == outbound then last.data else []
  {
    assert (transfers + [last])[..|transfers|] == transfers;
    FlatAppend(ChunksOf(transfers, outbound), [last.data]);
    assert Flat([last.data]) == last.data + Flat([last.data][1..]) == last.data;
    assert Flat(ChunksOf(transfers, outbound)) + [] == Flat(ChunksOf(transfers, outbound));
  }

  lemma {:induction false} OneByOneIsPrinted(wire: seq<Wired>, outbound: bool)
    requires CanPrint(wire)
    ensures Flat(ChunksOf(OneByOne(wire), outbound)) == Print(wire, outbound)
    decreases |wire|
  {
    hide Wired.Encoded;
    if wire == [] {
    } else {
      hide ChunksOf;
      var init, last := wire[..|wire| - 1], wire[|wire| - 1];
      OneByOneIsPrinted(init, outbound);
      ChunksMore(OneByOne(init), Transfer(last.outbound, last.Encoded()), outbound);
      assert Print(init, outbound) + [] == Print(init, outbound);
    }
  }

  lemma PrintsMore(wire: seq<Wired>, n: nat, i: nat)
    requires CanPrint(wire) && n <= |wire| && i < |wire|
    ensures |Print(wire[..i + 1], wire[i].outbound)| <= |Print(wire[..n], wire[i].outbound)| <==> i < n
  {
    hide Wired.Encoded;
    var o := wire[i].outbound;
    if i < n {
      assert wire[..n][..i + 1] == wire[..i + 1];
      PrintGrows(wire[..n], i + 1, o);
    } else {
      var more := wire[..i + 1];
      assert more[..i] == wire[..i] && more[i] == wire[i] && wire[..i][..n] == wire[..n];
      PrintGrows(wire[..i], n, o);
    }
  }

  lemma FirstPackets(wire: seq<Wired>, n: nat, i: nat)
    requires CanPrint(wire) && n <= |wire| && i < |wire|
    ensures Bring(OneByOne(wire)[..n], wire, i) <==> i < n
  {
    hide Print;
    hide OneByOne;
    OneByOneTake(wire, n);
    OneByOneIsPrinted(wire[..n], wire[i].outbound);
    PrintsMore(wire, n, i);
  }

  /** Packets sent one by one are carried, and complete in their order. */
  lemma OneByOneIsCarried(wire: seq<Wired>)
    requires CanPrint(wire)
    ensures Carries(OneByOne(wire), wire) && InOrder(OneByOne(wire), wire)
  {
    hide Wired.Encoded;
    OneByOneIsPrinted(wire, true);
    OneByOneIsPrinted(wire, false);
    forall n: nat, i: nat, j: nat | n <= |OneByOne(wire)| && i < j < |wire|
      ensures Bring(OneByOne(wire)[..n], wire, j) ==> Bring(OneByOne(wire)[..n], wire, i)
    {
      FirstPackets(wire, n, i);
      FirstPackets(wire, n, j);
    }
    hide Bring;
    hide OneByOne;
    hide Print;
  }
}

/** The usbmux demultiplexer: packet reassembly per direction, and the TCP connections the packets tunnel. */
module UsbMux {
  import opened Wire
  import opened MuxStream
  import opened InterfaceExperts

  const MUX_HEADER_V1: nat := 8
  const MUX_HEADER_V2: nat := 16
  const MAX_MUX_PACKET: nat := 1024 * 1024
  const TCP_HEADER: nat := 20

  const MUX_PROTO_VERSION: uint32 := 0
  const MUX_PROTO_TCP: uint32 := 6
  const USBMUX_MAGIC_IN: uint32 := 0xFACE_FACE
  const USBMUX_MAGIC_OUT: uint32 := 0xFEED_FACE

  // ---- Reassembly ----

  datatype Packet = Packet(protocol: uint32, payload: Bytes)

  predicate IsMagic(word: uint32) {
    word == USBMUX_MAGIC_IN || word == USBMUX_MAGIC_OUT
  }

  /** One turn of the reassembly loop: wait for more bytes, give the buffer up, or take a packet off the front. */
  datatype Reading = Wait | Lost | Whole(packet: Packet, rest: Bytes)

  /** The header length: 16 when the packet is long enough and carries a magic. */
  function HeaderLength(buffer: Bytes, length: nat): (h: nat)
    requires |buffer| >= Min(length, MUX_HEADER_V2)
    ensures h == MUX_HEADER_V1 || (h == MUX_HEADER_V2 && h <= length)
  {
    if length >= MUX_HEADER_V2 && IsMagic(Be32(buffer[8..])) then MUX_HEADER_V2 else MUX_HEADER_V1
  }

  function ReadPacket(buffer: Bytes): (reading: Reading)
    ensures reading.Whole? ==> |reading.rest| < |buffer|
  {
    if |buffer| < MUX_HEADER_V1 then Wait
    else
      var protocol, length := Be32(buffer), Be32(buffer[4..]);
      if length < MUX_HEADER_V1 || length > MAX_MUX_PACKET || protocol > MUX_PROTO_TCP then Lost
      else if |buffer| < Min(length, MUX_HEADER_V2) || |buffer| < length then Wait
      else Whole(Packet(protocol, buffer[HeaderLength(buffer, length)..length]), buffer[length..])
  }

  /** A parsed buffer: its packets, what is left to wait on, and what was thrown away with the framing. */
  datatype Reassembled = Reassembled(packets: seq<Packet>, rest: Bytes, discarded: Bytes)

  /** The functional counterpart of the reassembly loop. */
  function Reassemble(buffer: Bytes): Reassembled
    decreases |buffer|
  {
    match ReadPacket(buffer)
    case Wait => Reassembled([], buffer, [])
    case Lost => Reassembled([], [], buffer)
    case Whole(packet, rest) =>
      var more := Reassemble(rest);
      more.(packets := [packet] + more.packets)
  }

  datatype Fed = Fed(packets: seq<Packet>, buffer: Bytes, resyncs: nat)

  /** The functional counterpart of one call to feed, as far as framing is concerned. */
  function Feed(buffer: Bytes, data: Bytes): Fed {
    if data == [] then Fed([], buffer, 0)
    else
      var r := Reassemble(buffer + data);
      Fed(r.packets, r.rest, if r.discarded == [] then 0 else 1)
  }

  // ---- TCP ----

  /** The header fields that matter, with the six flag bits. */
  datatype Segment = Segment(source: uint16, destination: uint16, flags: uint16, data: Bytes) {
    predicate Fin() { flags % 2 == 1 }
    predicate Syn() { flags / 2 % 2 == 1 }
    predicate Rst() { flags / 4 % 2 == 1 }
    predicate Ack() { flags / 16 % 2 == 1 }
    predicate Closes() { Fin() || Rst() }
  }

  function ParseSegment(payload: Bytes): Option<Segment> {
    if |payload| < TCP_HEADER then None
    else
      var word := Be16(payload[12..]);
      var offset := word / 0x1000 * 4;
      var start := if offset < TCP_HEADER || offset > |payload| then TCP_HEADER else offset;
      Some(Segment(Be16(payload), Be16(payload[2..]), word % 0x40, payload[start..]))
  }

  // ---- The stream table ----

  const GENERATIONS: int := 0x1_0000_0000

  function StreamPort(host: uint16, device: uint16): uint32 {
    host as int * 0x1_0000 + device as int
  }

  function StreamId(host: uint16, device: uint16, index: uint32): uint64 {
    StreamPort(host, device) as int * 0x1_0000_0000 + index as int
  }

  /** An identifier tells its connection and generation. */
  lemma StreamIdTells(host: uint16, device: uint16, index: uint32)
    ensures var id: int := StreamId(host, device, index);
            && id / 0x1_0000_0000_0000 == host as int && id / 0x1_0000_0000 % 0x1_0000 == device as int
            && id % 0x1_0000_0000 == index as int
  {
  }

  /** What lockdown replies are read for; decoding a property list is a parameter of the model. */
  datatype Reply = Reply(service: string, port: int)

  /** From the decoder used (binary or XML) and the payload to the reply keys. */
  type Decoder = (bool, Bytes) -> Reply

  datatype Table = Table(
    version: uint32,
    index: map<uint32, uint32>,
    streams: map<uint64, Stream>,
    names: map<uint16, string>)
  {
    /** The generation count of a connection; none is zero. */
    function IndexOf(host: uint16, device: uint16): uint32 {
      var port := StreamPort(host, device);
      if port in index then index[port] else 0
    }

    function LatestId(host: uint16, device: uint16): uint64 {
      StreamId(host, device, IndexOf(host, device))
    }

    /** Every connection in the index has its latest stream, which carries the connection's ports. */
    ghost predicate Linked() {
      && (forall h: uint16, d: uint16 :: StreamPort(h, d) in index ==> LatestId(h, d) in streams)
      && (forall h: uint16, d: uint16, i: uint32 :: StreamId(h, d, i) in streams ==>
            var s := streams[StreamId(h, d, i)]; s.host == h && s.device == d)
    }
  }

  const EMPTY: Table := Table(0, map[], map[], map[])

  function ServiceName(names: map<uint16, string>, device: uint16): string {
    if device == LOCKDOWN_PORT then "lockdownd" else if device in names then names[device] else ""
  }

  function NewStream(names: map<uint16, string>, host: uint16, device: uint16): Stream {
    Stream(host, device, false, ServiceName(names, device), FRESH, FRESH, [])
  }

  /** Starts the next generation of a connection; the 32-bit generation counter wraps. */
  function BeginStream(t: Table, host: uint16, device: uint16): Table {
    var index := (t.IndexOf(host, device) as int + 1) % GENERATIONS;
    t.(index := t.index[StreamPort(host, device) := index],
       streams := t.streams[StreamId(host, device, index) := NewStream(t.names, host, device)])
  }

  /** A bare SYN from the host, or the first traffic of an unknown connection, begins a stream. */
  predicate Begins(t: Table, outbound: bool, segment: Segment) {
    || (outbound && segment.Syn() && !segment.Ack())
    || StreamPort(HostPort(outbound, segment), DevicePort(outbound, segment)) !in t.index
  }

  function HostPort(outbound: bool, segment: Segment): uint16 {
    if outbound then segment.source else segment.destination
  }

  function DevicePort(outbound: bool, segment: Segment): uint16 {
    if outbound then segment.destination else segment.source
  }

  function Opened(t: Table, outbound: bool, segment: Segment): Table {
    if Begins(t, outbound, segment)
    then BeginStream(t, HostPort(outbound, segment), DevicePort(outbound, segment))
    else t
  }

  /** What a segment does to its stream. */
  function Received(stream: Stream, outbound: bool, segment: Segment): Stream {
    var s := if segment.data == [] then stream else Deliver(stream, outbound, segment.data);
    if segment.Closes() then s.(closed := true) else s
  }

  function Named(decode: Decoder, message: Message): Option<(uint16, string)> {
    var reply := decode(message.binary, message.payload);
    if !message.outbound && reply.service != "" && 0 < reply.port < 0x1_0000
    then Some((reply.port, reply.service)) else None
  }

  /** The names a list of lockdown messages gives to device ports. */
  function Learn(decode: Decoder, names: map<uint16, string>, messages: seq<Message>): map<uint16, string>
    decreases |messages|
  {
    if messages == [] then names
    else
      var last := Named(decode, messages[|messages| - 1]);
      var before := Learn(decode, names, messages[..|messages| - 1]);
      if last.Some? then before[last.value.0 := last.value.1] else before
  }

  /** The messages a segment completes on its stream. */
  function NewMessages(stream: Stream, outbound: bool, segment: Segment): seq<Message> {
    Absorb(outbound, stream.FlowOf(outbound), segment.data).messages
  }

  /** Service names after a segment on a stream: only lockdown streams are read for them. */
  function Learned(
    decode: Decoder, names: map<uint16, string>, stream: Stream, outbound: bool, segment: Segment): map<uint16, string>
  {
    if stream.device == LOCKDOWN_PORT then Learn(decode, names, NewMessages(stream, outbound, segment)) else names
  }

  ghost function ApplySegment(decode: Decoder, t: Table, outbound: bool, segment: Segment): Table
    requires t.Linked()
  {
    var ready := Opened(t, outbound, segment);
    var id := ready.LatestId(HostPort(outbound, segment), DevicePort(outbound, segment));
    OpenedIsLinked(t, outbound, segment);
    var stream := ready.streams[id];
    ready.(streams := ready.streams[id := Received(stream, outbound, segment)],
           names := Learned(decode, ready.names, stream, outbound, segment))
  }

  lemma ApplySegmentUpdates(decode: Decoder, t: Table, ready: Table, id: uint64, outbound: bool, segment: Segment)
    requires t.Linked() && ready == Opened(t, outbound, segment)
    requires id == ready.LatestId(HostPort(outbound, segment), DevicePort(outbound, segment))
    ensures id in ready.streams
    ensures ApplySegment(decode, t, outbound, segment)
         == ready.(streams := ready.streams[id := Received(ready.streams[id], outbound, segment)],
                   names := Learned(decode, ready.names, ready.streams[id], outbound, segment))
  {
    OpenedIsLinked(t, outbound, segment);
  }

  ghost function ApplyPacket(decode: Decoder, t: Table, outbound: bool, packet: Packet): Table
    requires t.Linked()
  {
    if packet.protocol == MUX_PROTO_VERSION then
      if |packet.payload| >= 4 then t.(version := Be32(packet.payload)) else t
    else if packet.protocol == MUX_PROTO_TCP then
      match ParseSegment(packet.payload)
      case None => t
      case Some(segment) => ApplySegment(decode, t, outbound, segment)
    else t
  }

  ghost function ApplyPackets(decode: Decoder, t: Table, outbound: bool, packets: seq<Packet>): (r: Table)
    requires t.Linked()
    ensures r.Linked()
    decreases |packets|
  {
    if packets == [] then t
    else
      ApplyPacketIsLinked(decode, t, outbound, packets[0]);
      ApplyPackets(decode, ApplyPacket(decode, t, outbound, packets[0]), outbound, packets[1..])
  }

  lemma StreamIdInjective(h: uint16, d: uint16, i: uint32, h': uint16, d': uint16, i': uint32)
    ensures StreamPort(h, d) == StreamPort(h', d') <==> h == h' && d == d'
    ensures StreamId(h, d, i) == StreamId(h', d', i') <==> h == h' && d == d' && i == i'
  {
  }

  lemma BeginIsLinked(t: Table, host: uint16, device: uint16)
    requires t.Linked()
    ensures BeginStream(t, host, device).Linked()
    ensures StreamPort(host, device) in BeginStream(t, host, device).index
  {
    var b := BeginStream(t, host, device);
    forall h: uint16, d: uint16 | StreamPort(h, d) in b.index
      ensures b.LatestId(h, d) in b.streams
    {
      StreamIdInjective(h, d, 0, host, device, 0);
      assert (h, d) != (host, device) ==> b.LatestId(h, d) == t.LatestId(h, d);
    }
    forall h: uint16, d: uint16, i: uint32 | StreamId(h, d, i) in b.streams
      ensures var s := b.streams[StreamId(h, d, i)]; s.host == h && s.device == d
    {
      StreamIdInjective(h, d, i, host, device, b.IndexOf(host, device));
    }
  }

  lemma OpenedIsLinked(t: Table, outbound: bool, segment: Segment)
    requires t.Linked()
    ensures var o := Opened(t, outbound, segment);
            && o.Linked()
            && o.LatestId(HostPort(outbound, segment), DevicePort(outbound, segment)) in o.streams
  {
    BeginIsLinked(t, HostPort(outbound, segment), DevicePort(outbound, segment));
  }

  lemma ApplySegmentIsLinked(decode: Decoder, t: Table, outbound: bool, segment: Segment)
    requires t.Linked()
    ensures ApplySegment(decode, t, outbound, segment).Linked()
  {
    OpenedIsLinked(t, outbound, segment);
    var o := Opened(t, outbound, segment);
    var after := ApplySegment(decode, t, outbound, segment);
    assert after.index == o.index && after.streams.Keys == o.streams.Keys;
    forall h: uint16, d: uint16 | StreamPort(h, d) in after.index
      ensures after.LatestId(h, d) in after.streams
    {
      assert after.LatestId(h, d) == o.LatestId(h, d);
    }
  }

  lemma ApplyPacketIsLinked(decode: Decoder, t: Table, outbound: bool, packet: Packet)
    requires t.Linked()
    ensures ApplyPacket(decode, t, outbound, packet).Linked()
  {
    match ParseSegment(packet.payload)
    case None =>
    case Some(segment) => ApplySegmentIsLinked(decode, t, outbound, segment);
  }

  /** The value of the demultiplexer. */
  datatype Demux = Demux(table: Table, resyncs: nat, inn: Bytes, out: Bytes, traffic: Traffic) {
    function BufferOf(outbound: bool): Bytes { if outbound then out else inn }
  }

  ghost function FeedDemux(decode: Decoder, s: Demux, outbound: bool, data: Bytes): Demux
    requires s.table.Linked()
  {
    var fed := Feed(s.BufferOf(outbound), data);
    var table := ApplyPackets(decode, s.table, outbound, fed.packets);
    var next := s.(table := table, resyncs := s.resyncs + fed.resyncs, traffic := s.traffic.Bulk(data));
    if outbound then next.(out := fed.buffer) else next.(inn := fed.buffer)
  }
}

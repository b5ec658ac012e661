/** The five packet layouts say the same thing: printed events are read back, and captures drive their devices alike. */
module FormatLaws {
  import opened Wire
  import D = Device
  import opened Transfers
  import opened LinkTypes
  import TL = TransferLaws

  // ---- Printing ----

  datatype Format = Darwin10 | Darwin11 | UsbPcap | Usbmon | UsbmonMmapped {
    /** The numbers of the tcpdump registry of link types. */
    function LinkType(): uint32 {
      match this
      case Darwin10 => 266
      case Darwin11 => 266
      case UsbPcap => 249
      case Usbmon => 189
      case UsbmonMmapped => 220
    }
  }

  /** Where a device is: on which bus, at which address, and on Darwin its location. */
  datatype Place = Place(bus: uint16, address: byte, location: uint32)

  /** The identifier a format gives a device. */
  function DeviceId(format: Format, place: Place): uint64 {
    match format
    case Darwin10 => place.location as int * 0x1_0000_0000 + place.address as int
    case Darwin11 => place.location as int * 0x1_0000_0000 + place.address as int
    case UsbPcap => UsbPcapDevice(place.bus, place.address)
    case Usbmon => place.bus as int * 0x100 + place.address as int
    case UsbmonMmapped => place.bus as int * 0x100 + place.address as int
  }

  /** USBPcap has room for addresses of two bytes. */
  function UsbPcapDevice(bus: uint16, address: uint16): uint64 {
    bus as int * 0x1_0000 + address as int
  }

  function PutSetup(s: D.Setup): Bytes {
    [s.requestType, s.request] + PutLe16(s.value) + PutLe16(s.index) + PutLe16(s.length)
  }

  /** The payload: as many bytes as the header declares, or those that were captured. */
  function Captured(declared: uint32, bytes: Bytes): Bytes {
    bytes[..Min(declared, |bytes|)]
  }

  /** The header may have more than its 32 bytes, which it declares in one. */
  function DarwinPacket(version: uint16, kind: byte, id: uint64, place: Place, endpoint: byte, endpointType: byte,
                        declared: uint32, more: Bytes, bytes: Bytes): (w: Bytes)
    requires 32 + |more| < 0x100
    ensures |w| == 32 + |more| + |bytes|
  {
    PutLe16(version) + ([32 + |more|, kind] + (PutLe32(declared) + (Zeros(8) + (PutLe64(id) + (PutLe32(place.location)
    + ([2, place.address, endpoint, endpointType] + (more + bytes)))))))
  }

  /** The header may have more than its 27 bytes: the first one more is the stage of a control transfer. */
  function UsbPcapPacket(id: uint64, info: byte, bus: uint16, address: uint16, endpoint: byte, transfer: byte,
                         declared: uint32, more: Bytes, bytes: Bytes): (w: Bytes)
    requires 27 + |more| < 0x1_0000
    ensures |w| == 27 + |more| + |bytes|
  {
    PutLe16(27 + |more|) + (PutLe64(id) + (Zeros(6) + ([info] + (PutLe16(bus) + (PutLe16(address)
    + ([endpoint, transfer] + (PutLe32(declared) + (more + bytes))))))))
  }

  /** The length of the transfer is apart from that of the data captured with it. */
  function UsbmonPacket(mmapped: bool, event: byte, id: uint64, transfer: byte, place: Place, endpoint: byte,
                        setup: Option<D.Setup>, length: uint32, declared: uint32, bytes: Bytes): (w: Bytes)
    ensures |w| == (if mmapped then 64 else 48) + |bytes|
  {
    PutLe64(id) + ([event, transfer, endpoint, place.address] + (PutLe16(place.bus)
    + ([if setup.Some? then 0 else 0x2D, if bytes == [] then 0x3C else 0] + (Zeros(16)
    + (PutLe32(length) + (PutLe32(declared)
    + ((if setup.Some? then PutSetup(setup.value) else Zeros(8)) + (Zeros(if mmapped then 16 else 0) + bytes))))))))
  }

  /** There is room for the data and a setup packet; only usbmon tells of transfers that fail, and only USBPcap of data
      stages. */
  predicate Fits(format: Format, e: TL.Event) {
    && |e.Data()| < 0x1_0000_0000 - 8
    && (e.Abort? ==> format.Usbmon? || format.UsbmonMmapped?)
    && (e.Stage? ==> format.UsbPcap? && e.transfer.kind.ControlType?)
  }

  /** Darwin and USBPcap put the setup packet in front of the payload. */
  function WithSetup(e: TL.Event): Bytes {
    if e.Submit? && e.transfer.kind.ControlType? then PutSetup(e.transfer.setup) + e.Data() else e.Data()
  }

  function Encode(format: Format, place: Place, e: TL.Event): Bytes
    requires Fits(format, e)
  {
    match format
    case Darwin10 => EncodeDarwin(false, place, e)
    case Darwin11 => EncodeDarwin(true, place, e)
    case UsbPcap => EncodeUsbPcap(place, e)
    case Usbmon => EncodeUsbmon(false, place, e)
    case UsbmonMmapped => EncodeUsbmon(true, place, e)
  }

  function DarwinType(kind: TL.TransferType): byte {
    match kind
    case ControlType => 0
    case BulkType => 2
    case InterruptType => 3
  }

  function EncodeDarwin(v11: bool, place: Place, e: TL.Event): Bytes
    requires Fits(Darwin10, e)
  {
    var payload := WithSetup(e);
    DarwinPacket(if v11 then 0x0101 else 0x0100, if e.Submit? then 0 else 1, e.id, place, e.transfer.endpoint,
                 DarwinType(e.transfer.kind), |payload|, Zeros(if v11 then 8 else 0), payload)
  }

  /** USBPcap and usbmon number the types alike. */
  function PcapType(kind: TL.TransferType): byte {
    match kind
    case ControlType => 2
    case BulkType => 3
    case InterruptType => 1
  }

  /** Control transfers are captured in stages. */
  function UsbPcapStage(e: TL.Event): Bytes {
    if !e.transfer.kind.ControlType? then []
    else if e.Submit? then [0]
    else if e.Stage? then [1]
    else [3]
  }

  function EncodeUsbPcap(place: Place, e: TL.Event): Bytes
    requires Fits(UsbPcap, e)
  {
    var payload := WithSetup(e);
    UsbPcapPacket(e.id, if e.Complete? then 1 else 0, place.bus, place.address, e.transfer.endpoint,
                  PcapType(e.transfer.kind), |payload|, UsbPcapStage(e), payload)
  }

  /** The letters C, E and S. */
  function UsbmonEvent(e: TL.Event): byte {
    match e
    case Complete(_, _) => 0x43
    case Abort(_, _) => 0x45
    case _ => 0x53
  }

  function EncodeUsbmon(mmapped: bool, place: Place, e: TL.Event): Bytes
    requires Fits(Usbmon, e)
  {
    var t := e.transfer;
    UsbmonPacket(mmapped, UsbmonEvent(e), e.id, PcapType(t.kind), place, t.endpoint,
                 if t.kind.ControlType? && e.Submit? then Some(t.setup) else None, |e.Data()|, |e.Data()|, e.Data())
  }

  // ---- Reading back ----

  lemma ReadPutSetup(s: D.Setup, rest: Bytes)
    ensures |PutSetup(s)| == 8 && ReadSetup(PutSetup(s) + rest) == s
  {
    hide Le16;
    hide PutLe16;
    var w := PutSetup(s) + rest;
    var r6 := PutLe16(s.length) + rest;
    var r4 := PutLe16(s.index) + r6;
    var r2 := PutLe16(s.value) + r4;
    assert w == [s.requestType, s.request] + r2;
    assert w[0..] == w;
    Next(w, 0, [s.requestType, s.request], r2);
    Next(w, 2, PutLe16(s.value), r4);
    Next(w, 4, PutLe16(s.index), r6);
    Le16Of(s.value, r4);
    Le16Of(s.index, r6);
    Le16Of(s.length, rest);
  }

  lemma DarwinHead(w: Bytes, version: uint16, two: Bytes, length: uint32, rest: Bytes)
    requires |two| == 2 && w == PutLe16(version) + (two + (PutLe32(length) + (Zeros(8) + rest)))
    ensures |w| == 16 + |rest| && w[16..] == rest
    ensures Le16(w) == version && w[2] == two[0] && w[3] == two[1] && Le32(w[4..]) == length
  {
    hide Le16;
    hide Le32;
    hide PutLe16;
    hide PutLe32;
    hide Zeros;
    var r4 := PutLe32(length) + (Zeros(8) + rest);
    assert w[0..] == w;
    Next(w, 0, PutLe16(version), two + r4);
    Next(w, 2, two, r4);
    assert w[2 + 0] == two[0] && w[2 + 1] == two[1];
    Next(w, 4, PutLe32(length), Zeros(8) + rest);
    Next(w, 8, Zeros(8), rest);
    Le16Of(version, two + r4);
    Le32Of(length, Zeros(8) + rest);
  }

  lemma DarwinTail(w: Bytes, id: uint64, location: uint32, four: Bytes, pad: Bytes, payload: Bytes)
    requires |w| >= 16 && |four| == 4 && w[16..] == PutLe64(id) + (PutLe32(location) + (four + (pad + payload)))
    ensures |w| == 32 + |pad| + |payload| && w[32 + |pad|..] == payload
    ensures Le64(w[16..]) == id && Le32(w[24..]) == location && forall i | 0 <= i < 4 :: w[28 + i] == four[i]
  {
    hide Le32;
    hide Le64;
    hide PutLe32;
    hide PutLe64;
    var r28 := four + (pad + payload);
    Next(w, 16, PutLe64(id), PutLe32(location) + r28);
    Next(w, 24, PutLe32(location), r28);
    Next(w, 28, four, pad + payload);
    Next(w, 32, pad, payload);
    Le64Of(id, PutLe32(location) + r28);
    Le32Of(location, r28);
  }

  /** Every field of a printed Darwin packet is where its reader looks for it. */
  lemma DarwinFields(version: uint16, kind: byte, id: uint64, place: Place, endpoint: byte, endpointType: byte,
                     declared: uint32, more: Bytes, bytes: Bytes)
    requires 32 + |more| < 0x100
    ensures var w := DarwinPacket(version, kind, id, place, endpoint, endpointType, declared, more, bytes);
            var header: nat := 32 + |more|;
            && |w| == header + |bytes| && w[header..] == bytes
            && Le16(w) == version && w[2] == header && w[3] == kind
            && Le32(w[4..]) == declared && Le64(w[16..]) == id && Le32(w[24..]) == place.location
            && w[29] == place.address && w[30] == endpoint && w[31] == endpointType
  {
    hide Le16;
    hide Le32;
    hide Le64;
    hide PutLe16;
    hide PutLe32;
    hide PutLe64;
    hide Zeros;
    var four := [2, place.address, endpoint, endpointType];
    var length: byte := 32 + |more|;
    var r16 := PutLe64(id) + (PutLe32(place.location) + (four + (more + bytes)));
    var w := DarwinPacket(version, kind, id, place, endpoint, endpointType, declared, more, bytes);
    assert w == PutLe16(version) + ([length, kind] + (PutLe32(declared) + (Zeros(8) + r16)));
    hide DarwinPacket;
    DarwinHead(w, version, [length, kind], declared, r16);
    DarwinTail(w, id, place.location, four, more, bytes);
    assert w[28 + 1] == place.address && w[28 + 2] == endpoint && w[28 + 3] == endpointType;
  }

  lemma UsbPcapHead(w: Bytes, header: uint16, id: uint64, six: Bytes, one: Bytes, rest: Bytes)
    requires |six| == 6 && |one| == 1 && w == PutLe16(header) + (PutLe64(id) + (six + (one + rest)))
    ensures |w| == 17 + |rest| && w[17..] == rest
    ensures Le16(w) == header && Le64(w[2..]) == id && w[16] == one[0]
  {
    hide Le16;
    hide Le64;
    hide PutLe16;
    hide PutLe64;
    var r10 := six + (one + rest);
    assert w[0..] == w;
    Next(w, 0, PutLe16(header), PutLe64(id) + r10);
    Next(w, 2, PutLe64(id), r10);
    Next(w, 10, six, one + rest);
    Next(w, 16, one, rest);
    Le16Of(header, PutLe64(id) + r10);
    Le64Of(id, r10);
  }

  lemma UsbPcapTail(w: Bytes, bus: uint16, address: uint16, two: Bytes, length: uint32, last: Bytes, payload: Bytes)
    requires |two| == 2 && 17 <= |w|
    requires w[17..] == PutLe16(bus) + (PutLe16(address) + (two + (PutLe32(length) + (last + payload))))
    ensures |w| == 27 + |last| + |payload| && w[27 + |last|..] == payload
    ensures Le16(w[17..]) == bus && Le16(w[19..]) == address && Le32(w[23..]) == length
    ensures w[21] == two[0] && w[22] == two[1] && (last != [] ==> w[27] == last[0])
  {
    hide Le16;
    hide Le32;
    hide PutLe16;
    hide PutLe32;
    var r21 := two + (PutLe32(length) + (last + payload));
    Next(w, 17, PutLe16(bus), PutLe16(address) + r21);
    Next(w, 19, PutLe16(address), r21);
    Next(w, 21, two, PutLe32(length) + (last + payload));
    Next(w, 23, PutLe32(length), last + payload);
    Next(w, 27, last, payload);
    if last != [] { assert w[27 + 0] == last[0]; }
    Le16Of(bus, PutLe16(address) + r21);
    Le16Of(address, r21);
    Le32Of(length, last + payload);
  }

  lemma UsbPcapFields(id: uint64, info: byte, bus: uint16, address: uint16, endpoint: byte, transfer: byte,
                      declared: uint32, more: Bytes, bytes: Bytes)
    requires 27 + |more| < 0x1_0000
    ensures var w := UsbPcapPacket(id, info, bus, address, endpoint, transfer, declared, more, bytes);
            var header: nat := 27 + |more|;
            && |w| == header + |bytes| && w[header..] == bytes
            && Le16(w) == header && Le64(w[2..]) == id && w[16] == info
            && Le16(w[17..]) == bus && Le16(w[19..]) == address
            && w[21] == endpoint && w[22] == transfer && Le32(w[23..]) == declared
            && (more != [] ==> w[27] == more[0])
  {
    hide Le16;
    hide Le32;
    hide Le64;
    hide PutLe16;
    hide PutLe32;
    hide PutLe64;
    hide Zeros;
    var header: uint16 := 27 + |more|;
    var r17 := PutLe16(bus) + (PutLe16(address) + ([endpoint, transfer] + (PutLe32(declared) + (more + bytes))));
    var w := UsbPcapPacket(id, info, bus, address, endpoint, transfer, declared, more, bytes);
    assert w == PutLe16(header) + (PutLe64(id) + (Zeros(6) + ([info] + r17)));
    hide UsbPcapPacket;
    UsbPcapHead(w, header, id, Zeros(6), [info], r17);
    UsbPcapTail(w, bus, address, [endpoint, transfer], declared, more, bytes);
  }

  lemma UsbmonHead(w: Bytes, id: uint64, four: Bytes, bus: uint16, rest: Bytes)
    requires |four| == 4 && w == PutLe64(id) + (four + (PutLe16(bus) + rest))
    ensures |w| == 14 + |rest| && w[14..] == rest
    ensures Le64(w) == id && Le16(w[12..]) == bus && forall i | 0 <= i < 4 :: w[8 + i] == four[i]
  {
    hide Le16;
    hide Le64;
    hide PutLe16;
    hide PutLe64;
    assert w[0..] == w;
    Next(w, 0, PutLe64(id), four + (PutLe16(bus) + rest));
    Next(w, 8, four, PutLe16(bus) + rest);
    Next(w, 12, PutLe16(bus), rest);
    Le64Of(id, four + (PutLe16(bus) + rest));
    Le16Of(bus, rest);
  }

  lemma UsbmonTail(w: Bytes, flags: Bytes, length: uint32, declared: uint32, last: Bytes, pad: Bytes, bytes: Bytes)
    requires |w| >= 14 && |flags| == 2 && |last| == 8
    requires w[14..] == flags + (Zeros(16) + (PutLe32(length) + (PutLe32(declared) + (last + (pad + bytes)))))
    ensures |w| == 48 + |pad| + |bytes| && w[48 + |pad|..] == bytes
    ensures w[14] == flags[0] && Le32(w[36..]) == declared && w[40..] == last + (pad + bytes)
  {
    hide Le32;
    hide PutLe32;
    hide Zeros;
    var r40 := last + (pad + bytes);
    var r36 := PutLe32(declared) + r40;
    var r32 := PutLe32(length) + r36;
    Next(w, 14, flags, Zeros(16) + r32);
    assert w[14 + 0] == flags[0];
    Next(w, 16, Zeros(16), r32);
    Next(w, 32, PutLe32(length), r36);
    Next(w, 36, PutLe32(declared), r40);
    Next(w, 40, last, pad + bytes);
    Next(w, 48, pad, bytes);
    Le32Of(declared, r40);
  }

  lemma UsbmonFields(mmapped: bool, event: byte, id: uint64, transfer: byte, place: Place, endpoint: byte,
                     setup: Option<D.Setup>, length: uint32, declared: uint32, bytes: Bytes)
    ensures var w := UsbmonPacket(mmapped, event, id, transfer, place, endpoint, setup, length, declared, bytes);
            var header: nat := if mmapped then 64 else 48;
            && |w| == header + |bytes| && w[header..] == bytes
            && Le64(w) == id && w[8] == event && w[9] == transfer && w[10] == endpoint && w[11] == place.address
            && Le16(w[12..]) == place.bus && (w[14] == 0 <==> setup.Some?) && Le32(w[36..]) == declared
            && (setup.Some? ==> ReadSetup(w[40..]) == setup.value)
  {
    hide Le16;
    hide Le32;
    hide Le64;
    hide PutLe16;
    hide PutLe32;
    hide PutLe64;
    hide ReadSetup;
    hide Zeros;
    var pad := Zeros(if mmapped then 16 else 0);
    if setup.Some? { ReadPutSetup(setup.value, pad + bytes); }
    hide PutSetup;
    var last := if setup.Some? then PutSetup(setup.value) else Zeros(8);
    var flags: Bytes := [if setup.Some? then 0 else 0x2D, if bytes == [] then 0x3C else 0];
    var four := [event, transfer, endpoint, place.address];
    var w := UsbmonPacket(mmapped, event, id, transfer, place, endpoint, setup, length, declared, bytes);
    var rest := flags + (Zeros(16) + (PutLe32(length) + (PutLe32(declared) + (last + (pad + bytes)))));
    assert w == PutLe64(id) + (four + (PutLe16(place.bus) + rest));
    hide UsbmonPacket;
    UsbmonHead(w, id, four, place.bus, rest);
    UsbmonTail(w, flags, length, declared, last, pad, bytes);
    assert w[8 + 0] == event && w[8 + 1] == transfer && w[8 + 2] == endpoint && w[8 + 3] == place.address;
  }

  lemma SetupLength(s: D.Setup)
    ensures |PutSetup(s)| == 8
  {
  }

  lemma SetupIsSplit(device: uint64, endpoint: byte, id: uint64, setup: D.Setup, data: Bytes)
    ensures SubmitControl(device, endpoint, id, PutSetup(setup) + data)
        == Occurs(device, BeginControl(endpoint, id, setup, data))
  {
    ReadPutSetup(setup, data);
    hide PutSetup;
    hide ReadSetup;
    assert (PutSetup(setup) + data)[8..] == data;
  }

  /** Behind the header comes the payload. */
  lemma PayloadIsCut(w: Bytes, header: nat, declared: uint32, bytes: Bytes)
    requires |w| == header + |bytes| && w[header..] == bytes
    ensures w[header..header + Min(declared, |w| - header)] == Captured(declared, bytes)
  {
  }

  lemma DarwinIsDecoded(version: uint16, kind: byte, id: uint64, place: Place, endpoint: byte, endpointType: byte,
                        declared: uint32, more: Bytes, bytes: Bytes)
    requires 32 + |more| < 0x100
    ensures ReadDarwin(DarwinPacket(version, kind, id, place, endpoint, endpointType, declared, more, bytes))
         == if version in {0x0100, 0x0101}
            then DarwinReading(DeviceId(Darwin10, place), kind, endpointType, endpoint, id, Captured(declared, bytes))
            else Refused
  {
    hide DarwinReading;
    hide Le16;
    hide Le32;
    hide Le64;
    DarwinFields(version, kind, id, place, endpoint, endpointType, declared, more, bytes);
    hide DarwinPacket;
    var w := DarwinPacket(version, kind, id, place, endpoint, endpointType, declared, more, bytes);
    PayloadIsCut(w, 32 + |more|, declared, bytes);
    hide Captured;
  }

  lemma UsbPcapIsDecoded(id: uint64, info: byte, bus: uint16, address: uint16, endpoint: byte, transfer: byte,
                         declared: uint32, more: Bytes, bytes: Bytes)
    requires 27 + |more| < 0x1_0000
    ensures ReadUsbPcap(UsbPcapPacket(id, info, bus, address, endpoint, transfer, declared, more, bytes))
         == UsbPcapReading(UsbPcapDevice(bus, address), info, transfer, if more == [] then None else Some(more[0]),
                           endpoint, id, Captured(declared, bytes))
  {
    hide UsbPcapReading;
    hide Le16;
    hide Le32;
    hide Le64;
    UsbPcapFields(id, info, bus, address, endpoint, transfer, declared, more, bytes);
    hide UsbPcapPacket;
    var w := UsbPcapPacket(id, info, bus, address, endpoint, transfer, declared, more, bytes);
    PayloadIsCut(w, 27 + |more|, declared, bytes);
    hide Captured;
  }

  lemma UsbmonIsDecoded(mmapped: bool, event: byte, id: uint64, transfer: byte, place: Place, endpoint: byte,
                        setup: Option<D.Setup>, length: uint32, declared: uint32, bytes: Bytes)
    ensures ReadUsbmon(UsbmonPacket(mmapped, event, id, transfer, place, endpoint, setup, length, declared, bytes),
                       mmapped)
         == UsbmonReading(DeviceId(Usbmon, place), event, transfer, setup, endpoint, id, Captured(declared, bytes))
  {
    hide UsbmonReading;
    hide ReadSetup;
    hide Le16;
    hide Le32;
    hide Le64;
    UsbmonFields(mmapped, event, id, transfer, place, endpoint, setup, length, declared, bytes);
    hide UsbmonPacket;
    var w := UsbmonPacket(mmapped, event, id, transfer, place, endpoint, setup, length, declared, bytes);
    PayloadIsCut(w, if mmapped then 64 else 48, declared, bytes);
    hide Captured;
  }

  // ---- Packets that tell of no event ----

  /** A packet without a whole header of a version known is refused. */
  lemma RefusedByHeader(data: Bytes)
    ensures ReadDarwin(data).Refused?
       <==> |data| < 32 || data[0] > 1 || data[1] != 1 || !(32 <= data[2] <= |data|)
    ensures ReadUsbPcap(data).Refused?
       <==> |data| < 27 || !(27 <= data[0] + data[1] as int * 0x100 <= |data|)
    ensures ReadUsbmon(data, false).Refused? <==> |data| < 48
    ensures ReadUsbmon(data, true).Refused? <==> |data| < 64
  {
    if |data| >= 2 { TwoDigits(data[1], data[0], 0); }
    hide Number;
  }

  /** A Darwin packet tells of an event when it is a request or a completion, of a control, bulk or interrupt transfer;
      a control request without a whole setup packet is warned of. */
  lemma DarwinMentions(version: uint16, kind: byte, id: uint64, place: Place, endpoint: byte, endpointType: byte,
                       declared: uint32, more: Bytes, bytes: Bytes)
    requires 32 + |more| < 0x100 && version in {0x0100, 0x0101}
    ensures var w := DarwinPacket(version, kind, id, place, endpoint, endpointType, declared, more, bytes);
            var reading, short := ReadDarwin(w), endpointType == 0 && kind == 0 && Min(declared, |bytes|) < 8;
            && !reading.Refused? && reading.device == DeviceId(Darwin10, place)
            && (reading.Mention? <==> endpointType !in {0, 2, 3} || kind > 1 || short)
            && (reading.Mention? ==> reading.warned == short)
  {
    hide ReadDarwin;
    hide DarwinPacket;
    DarwinIsDecoded(version, kind, id, place, endpoint, endpointType, declared, more, bytes);
  }

  /** A USBPcap packet tells of an event when it is of a bulk or interrupt transfer, whose lowest info bit tells
      completions, or one of the three stages of a control transfer; one without a stage, or a setup stage without a
      whole setup packet, is warned of. */
  lemma UsbPcapMentions(id: uint64, info: byte, bus: uint16, address: uint16, endpoint: byte, transfer: byte,
                        declared: uint32, more: Bytes, bytes: Bytes)
    requires 27 + |more| < 0x1_0000
    ensures var w := UsbPcapPacket(id, info, bus, address, endpoint, transfer, declared, more, bytes);
            var reading, data := ReadUsbPcap(w), Captured(declared, bytes);
            var short := transfer == 2 && (more == [] || (more[0] == 0 && |data| < 8));
            && !reading.Refused? && reading.device == UsbPcapDevice(bus, address)
            && (reading.Mention? <==> transfer !in {1, 2, 3} || short
                                      || (transfer == 2 && more != [] && more[0] !in {0, 1, 3}))
            && (reading.Mention? ==> reading.warned == short)
            && (transfer in {1, 3} ==>
                  reading.op == if info % 2 == 1 then EndBulk(endpoint, id, data) else BeginBulk(endpoint, id, data))
  {
    hide ReadUsbPcap;
    hide UsbPcapPacket;
    hide UsbPcapDevice;
    UsbPcapIsDecoded(id, info, bus, address, endpoint, transfer, declared, more, bytes);
  }

  /** A usbmon packet tells of an event when it is a failure, or a submission or completion of a control, bulk or
      interrupt transfer; a control submission that has no setup packet is warned of. */
  lemma UsbmonMentions(mmapped: bool, event: byte, id: uint64, transfer: byte, place: Place, endpoint: byte,
                       setup: Option<D.Setup>, length: uint32, declared: uint32, bytes: Bytes)
    ensures var w := UsbmonPacket(mmapped, event, id, transfer, place, endpoint, setup, length, declared, bytes);
            var reading, short := ReadUsbmon(w, mmapped), event == 0x53 && transfer == 2 && setup == None;
            && !reading.Refused? && reading.device == DeviceId(Usbmon, place)
            && (reading.Mention? <==> event != 0x45 && (transfer !in {1, 2, 3} || event !in {0x53, 0x43} || short))
            && (reading.Mention? ==> reading.warned == short)
            && (event == 0x45 ==> reading.op == Op.Abort(endpoint, id))
  {
    hide ReadUsbmon;
    hide UsbmonPacket;
    hide DeviceId;
    UsbmonIsDecoded(mmapped, event, id, transfer, place, endpoint, setup, length, declared, bytes);
  }

  // ---- Events ----

  lemma WithSetupLength(e: TL.Event)
    ensures |WithSetup(e)| <= 8 + |e.Data()|
  {
  }

  lemma DarwinIsRead(v11: bool, place: Place, e: TL.Event)
    requires Fits(Darwin10, e)
    ensures ReadDarwin(EncodeDarwin(v11, place, e)) == Occurs(DeviceId(Darwin10, place), e.Op())
  {
    hide ReadDarwin;
    hide DarwinPacket;
    hide DeviceId;
    hide SubmitControl;
    hide PutSetup;
    var t := e.transfer;
    WithSetupLength(e);
    var payload := WithSetup(e);
    assert Captured(|payload|, payload) == payload;
    DarwinIsDecoded(if v11 then 0x0101 else 0x0100, if e.Submit? then 0 else 1, e.id, place, t.endpoint,
                    DarwinType(t.kind), |payload|, Zeros(if v11 then 8 else 0), payload);
    if e.Submit? && t.kind.ControlType? {
      SetupIsSplit(DeviceId(Darwin10, place), t.endpoint, e.id, t.setup, e.Data());
    }
  }

  lemma UsbPcapIsRead(place: Place, e: TL.Event)
    requires Fits(UsbPcap, e)
    ensures ReadUsbPcap(EncodeUsbPcap(place, e)) == Occurs(DeviceId(UsbPcap, place), e.Op())
  {
    hide ReadUsbPcap;
    hide UsbPcapPacket;
    hide SubmitControl;
    hide PutSetup;
    var t := e.transfer;
    WithSetupLength(e);
    var payload := WithSetup(e);
    assert Captured(|payload|, payload) == payload;
    UsbPcapIsDecoded(e.id, if e.Complete? then 1 else 0, place.bus, place.address, t.endpoint, PcapType(t.kind),
                     |payload|, UsbPcapStage(e), payload);
    if e.Submit? && t.kind.ControlType? {
      SetupIsSplit(DeviceId(UsbPcap, place), t.endpoint, e.id, t.setup, e.Data());
    }
  }

  lemma UsbmonIsRead(mmapped: bool, place: Place, e: TL.Event)
    requires Fits(Usbmon, e)
    ensures ReadUsbmon(EncodeUsbmon(mmapped, place, e), mmapped) == Occurs(DeviceId(Usbmon, place), e.Op())
  {
    hide ReadUsbmon;
    hide UsbmonPacket;
    hide DeviceId;
    var t := e.transfer;
    UsbmonIsDecoded(mmapped, UsbmonEvent(e), e.id, PcapType(t.kind), place, t.endpoint,
                    if t.kind.ControlType? && e.Submit? then Some(t.setup) else None, |e.Data()|, |e.Data()|,
                    e.Data());
    assert Captured(|e.Data()|, e.Data()) == e.Data();
  }

  /** In each format, a printed event is read as that event on that device. */
  lemma EncodedIsRead(format: Format, place: Place, e: TL.Event)
    requires Fits(format, e)
    ensures Supported(format.LinkType())
    ensures ReadPacket(format.LinkType(), Encode(format, place, e)) == Occurs(DeviceId(format, place), e.Op())
  {
    hide ReadDarwin;
    hide ReadUsbPcap;
    hide ReadUsbmon;
    hide EncodeUsbmon;
    hide EncodeUsbPcap;
    hide EncodeDarwin;
    hide TL.Event.Op;
    match format
    case Darwin10 => DarwinIsRead(false, place, e);
    case Darwin11 => DarwinIsRead(true, place, e);
    case UsbPcap => UsbPcapIsRead(place, e);
    case Usbmon => UsbmonIsRead(false, place, e);
    case UsbmonMmapped => UsbmonIsRead(true, place, e);
  }
}

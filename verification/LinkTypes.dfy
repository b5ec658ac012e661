/** The packet layouts of the supported link types, read into transfer events, and the devices of a capture. */
module LinkTypes {
  import opened Wire
  import D = Device
  import opened Transfers

  const LINKTYPE_USB_LINUX: uint32 := 189
  const LINKTYPE_USB_LINUX_MMAPPED: uint32 := 220
  const LINKTYPE_USBPCAP: uint32 := 249
  const LINKTYPE_USB_DARWIN: uint32 := 266

  const SETUP_SIZE: nat := 8
  const DARWIN_HEADER: nat := 32
  const USBPCAP_HEADER: nat := 27
  const USBPCAP_CONTROL_HEADER: nat := 28
  const USBMON_HEADER: nat := 48
  const USBMON_MMAPPED_HEADER: nat := 64

  const DARWIN_IO_SUBMIT: byte := 0
  const DARWIN_IO_COMPLETE: byte := 1
  const USB_EP_CONTROL: byte := 0
  const USB_EP_BULK: byte := 2
  const USB_EP_INTERRUPT: byte := 3

  const USBPCAP_INTERRUPT: byte := 1
  const USBPCAP_CONTROL: byte := 2
  const USBPCAP_BULK: byte := 3
  const USBPCAP_STAGE_SETUP: byte := 0
  const USBPCAP_STAGE_DATA: byte := 1
  const USBPCAP_STAGE_COMPLETE: byte := 3

  /** 'S', 'C' and 'E'. */
  const USBMON_SUBMIT: byte := 0x53
  const USBMON_COMPLETE: byte := 0x43
  const USBMON_ERROR: byte := 0x45
  const USBMON_INTERRUPT: byte := 1
  const USBMON_CONTROL: byte := 2
  const USBMON_BULK: byte := 3

  function ReadSetup(s: Bytes): D.Setup
    requires |s| >= SETUP_SIZE
  {
    D.Setup(s[0], s[1], Le16(s[2..]), Le16(s[4..]), Le16(s[6..]))
  }

  /** What a packet says: nothing readable, an event-less mention of a device, or an event on a device. */
  datatype Reading =
    | Refused
    | Mention(device: uint64, warned: bool)
    | Occurs(device: uint64, op: Op)

  /** A control submission whose payload starts with the setup packet. */
  function SubmitControl(device: uint64, endpoint: byte, id: uint64, payload: Bytes): Reading {
    if |payload| < SETUP_SIZE then Mention(device, true)
    else Occurs(device, BeginControl(endpoint, id, ReadSetup(payload), payload[SETUP_SIZE..]))
  }

  function ReadDarwin(data: Bytes): Reading {
    if |data| < DARWIN_HEADER then Refused
    else if Le16(data) != 0x0100 && Le16(data) != 0x0101 then Refused
    else if data[2] as nat < DARWIN_HEADER || data[2] > |data| then Refused
    else
      var header: nat := data[2];
      var device := Le32(data[24..]) as int * 0x1_0000_0000 + data[29] as int;
      var payload := data[header..header + Min(Le32(data[4..]), |data| - header)];
      DarwinReading(device, data[3], data[31], data[30], Le64(data[16..]), payload)
  }

  function DarwinReading(device: uint64, kind: byte, endpointType: byte, endpoint: byte, id: uint64,
                         payload: Bytes): Reading {
    if endpointType == USB_EP_CONTROL then
      if kind == DARWIN_IO_SUBMIT then SubmitControl(device, endpoint, id, payload)
      else if kind == DARWIN_IO_COMPLETE then Occurs(device, EndControl(endpoint, id, payload))
      else Mention(device, false)
    else if endpointType == USB_EP_BULK || endpointType == USB_EP_INTERRUPT then
      if kind == DARWIN_IO_SUBMIT then Occurs(device, BeginBulk(endpoint, id, payload))
      else if kind == DARWIN_IO_COMPLETE then Occurs(device, EndBulk(endpoint, id, payload))
      else Mention(device, false)
    else Mention(device, false)
  }

  function ReadUsbPcap(data: Bytes): Reading {
    if |data| < USBPCAP_HEADER then Refused
    else if Le16(data) < USBPCAP_HEADER || Le16(data) > |data| then Refused
    else
      var header: nat := Le16(data);
      var device := Le16(data[17..]) as int * 0x1_0000 + Le16(data[19..]) as int;
      var payload := data[header..header + Min(Le32(data[23..]), |data| - header)];
      var stage := if header < USBPCAP_CONTROL_HEADER then None else Some(data[27]);
      UsbPcapReading(device, data[16], data[22], stage, data[21], Le64(data[2..]), payload)
  }

  function UsbPcapReading(device: uint64, info: byte, transfer: byte, stage: Option<byte>, endpoint: byte, id: uint64,
                          payload: Bytes): Reading {
    if transfer == USBPCAP_CONTROL then
      if stage == None then Mention(device, true)
      else if stage.value == USBPCAP_STAGE_SETUP then SubmitControl(device, endpoint, id, payload)
      else if stage.value == USBPCAP_STAGE_DATA then Occurs(device, AppendControl(endpoint, id, payload))
      else if stage.value == USBPCAP_STAGE_COMPLETE then Occurs(device, EndControl(endpoint, id, payload))
      else Mention(device, false)
    else if transfer == USBPCAP_BULK || transfer == USBPCAP_INTERRUPT then
      if info % 2 == 1 then Occurs(device, EndBulk(endpoint, id, payload))
      else Occurs(device, BeginBulk(endpoint, id, payload))
    else Mention(device, false)
  }

  function ReadUsbmon(data: Bytes, mmapped: bool): Reading {
    var header := if mmapped then USBMON_MMAPPED_HEADER else USBMON_HEADER;
    if |data| < header then Refused
    else
      var device := Le16(data[12..]) as int * 0x100 + data[11] as int;
      var payload := data[header..header + Min(Le32(data[36..]), |data| - header)];
      var setup := if data[14] != 0 then None else Some(ReadSetup(data[40..]));
      UsbmonReading(device, data[8], data[9], setup, data[10], Le64(data), payload)
  }

  function UsbmonReading(device: uint64, event: byte, transfer: byte, setup: Option<D.Setup>, endpoint: byte,
                         id: uint64,
                         payload: Bytes): Reading {
    if event == USBMON_ERROR then Occurs(device, Abort(endpoint, id))
    else if transfer == USBMON_CONTROL then
      if event == USBMON_SUBMIT then
        if setup == None then Mention(device, true)
            else Occurs(device, BeginControl(endpoint, id, setup.value, payload))
      else if event == USBMON_COMPLETE then Occurs(device, EndControl(endpoint, id, payload))
      else Mention(device, false)
    else if transfer == USBMON_BULK || transfer == USBMON_INTERRUPT then
      if event == USBMON_SUBMIT then Occurs(device, BeginBulk(endpoint, id, payload))
      else if event == USBMON_COMPLETE then Occurs(device, EndBulk(endpoint, id, payload))
      else Mention(device, false)
    else Mention(device, false)
  }

  predicate Supported(linktype: uint32) {
    linktype in {LINKTYPE_USB_DARWIN, LINKTYPE_USBPCAP, LINKTYPE_USB_LINUX, LINKTYPE_USB_LINUX_MMAPPED}
  }

  function ReadPacket(linktype: uint32, data: Bytes): Reading
    requires Supported(linktype)
  {
    if linktype == LINKTYPE_USB_DARWIN then ReadDarwin(data)
    else if linktype == LINKTYPE_USBPCAP then ReadUsbPcap(data)
    else ReadUsbmon(data, linktype == LINKTYPE_USB_LINUX_MMAPPED)
  }

  /** Whether the packet counts as decoded. */
  predicate Decodes(reading: Reading) {
    reading.Occurs? || (reading.Mention? && !reading.warned)
  }

  // ---- The devices of a capture ----

  /** The value of an input file: its device handles in order of appearance, and its counters. */
  datatype Capture = Capture(
    devices: map<uint64, Handle>, order: seq<uint64>, packets: nat, warnings: nat, unsupported: set<uint32>)

  const BLANK: Capture := Capture(map[], [], 0, 0, {})

  /** The order lists exactly the devices there are, and each has a session. */
  predicate Listed(devices: map<uint64, Handle>, order: seq<uint64>) {
    && (forall id <- devices :: devices[id].sessions != [])
    && (forall id <- devices :: id in order) && (forall id <- order :: id in devices)
  }

  predicate Coherent(c: Capture) {
    Listed(c.devices, c.order)
  }

  /** The capture with a handle for the device. */
  function Known(c: Capture, device: uint64): Capture {
    if device in c.devices then c
    else c.(devices := c.devices[device := FIRST], order := c.order + [device])
  }

  lemma KnownIsCoherent(c: Capture, device: uint64)
    requires Coherent(c)
    ensures Coherent(Known(c, device)) && device in Known(c, device).devices
  {
  }

  lemma StepIsListed(devices: map<uint64, Handle>, order: seq<uint64>, device: uint64, op: Op)
    requires Listed(devices, order) && device in devices
    ensures devices[device].sessions != [] && Listed(devices[device := Step(devices[device], op)], order)
  {
    hide Step;
  }

  function Drive(c: Capture, reading: Reading): (r: Capture)
    requires Coherent(c)
    ensures Coherent(r)
  {
    match reading
    case Refused => c.(warnings := c.warnings + 1)
    case Mention(device, warned) =>
      var k := Known(c, device);
      if warned then k.(warnings := k.warnings + 1) else k
    case Occurs(device, op) =>
      var k := Known(c, device);
      k.(devices := k.devices[device := Step(k.devices[device], op)])
  }

  function Packet(c: Capture, linktype: uint32, data: Bytes): (r: Capture)
    requires Coherent(c)
    ensures Coherent(r)
  {
    var counted := c.(packets := c.packets + 1);
    if Supported(linktype) then Drive(counted, ReadPacket(linktype, data))
    else if linktype in c.unsupported then counted
    else counted.(unsupported := c.unsupported + {linktype}, warnings := c.warnings + 1)
  }
}

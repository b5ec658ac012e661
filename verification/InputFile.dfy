/** The reader of a capture as it runs: device handles created on first mention and driven in place. */
module InputFile {
  import opened Wire
  import D = Device
  import T = Transfers
  import opened LinkTypes
  import opened Records

  class InputFile {
    var packetCount: nat
    var warningCount: nat
    var unsupportedLinktypes: set<uint32>
    var devices: map<uint64, T.DeviceHandle>
    var deviceOrder: seq<uint64>

    /** The values of the handles, and which handle each object belongs to. */
    ghost var values: map<uint64, T.Handle>
    ghost var owner: map<object, uint64>

    ghost function Repr(): set<object>
      reads this`owner
    {
      owner.Keys
    }

    /** The objects belong to the device. */
    static ghost predicate Owns(owner: map<object, uint64>, repr: set<object>, id: uint64) {
      forall o <- repr :: o in owner && owner[o] == id
    }

    /** Objects given to another device are none of these. */
    static lemma StillOwns(owner: map<object, uint64>, repr: set<object>, given: set<object>, device: uint64,
                           id: uint64)
      requires Owns(owner, repr, id) && id != device && forall o <- given :: o in owner ==> owner[o] == device
      ensures Owns(owner + map o | o in given :: device, repr, id)
    {
    }

    static lemma OwnsGiven(owner: map<object, uint64>, given: set<object>, device: uint64)
      ensures Owns(owner + map o | o in given :: device, given, device)
    {
    }

    /** A handle has objects of its own, and holds its value. */
    ghost predicate Holds(id: uint64)
      requires id in devices
      reads this`devices, this`values, this`owner, Repr()
    {
      var handle := devices[id];
      && handle in owner && this !in handle.Repr() && Owns(owner, handle.Repr(), id)
      && handle.Valid() && id in values && handle.Value() == values[id]
    }

    /** All handles but one hold their values. */
    ghost predicate StoredBut(id: Option<uint64>)
      reads this`devices, this`values, this`owner, Repr()
    {
      && this !in owner
      && (forall k <- devices :: Some(k) == id || Holds(k))
      && (forall k <- values :: Some(k) == id || k in devices)
    }

    ghost predicate Stored()
      reads this`devices, this`values, this`owner, Repr()
    {
      StoredBut(None)
    }

    ghost function Value(): Capture
      reads this
    {
      Capture(values, deviceOrder, packetCount, warningCount, unsupportedLinktypes)
    }

    ghost predicate Valid()
      reads this, Repr()
    {
      Stored() && Listed(values, deviceOrder)
    }

    constructor ()
      ensures Valid() && Value() == BLANK && Repr() == {}
    {
      packetCount, warningCount, unsupportedLinktypes := 0, 0, {};
      devices, deviceOrder := map[], [];
      values, owner := map[], map[];
    }

    method Warn()
      requires Valid()
      modifies this`warningCount
      ensures Valid() && Value() == old(Value()).(warnings := old(warningCount) + 1)
    {
      warningCount := warningCount + 1;
    }

    method CountPacket()
      requires Valid()
      modifies this`packetCount
      ensures Valid() && Value() == old(Value()).(packets := old(packetCount) + 1)
    {
      packetCount := packetCount + 1;
    }

    method MarkUnsupported(linktype: uint32)
      requires Valid()
      modifies this`unsupportedLinktypes
      ensures Valid() && Value() == old(Value()).(unsupported := old(unsupportedLinktypes) + {linktype})
    {
      unsupportedLinktypes := unsupportedLinktypes + {linktype};
    }

    lemma SameKeys()
      requires Stored()
      ensures devices.Keys == values.Keys
    {
    }

    lemma HandleIsMine(device: uint64)
      requires Stored() && device in devices
      ensures devices[device].Repr() <= Repr() && this !in Repr()
    {
    }

    method HandleFor(device: uint64)
      requires Valid()
      modifies this`devices, this`deviceOrder, this`values, this`owner
      ensures Valid() && fresh(Repr() - old(Repr())) && device in devices
      ensures Value() == Known(old(Value()), device)
    {
      hide Listed;
      hide StoredBut;
      KnownIsCoherent(Value(), device);
      SameKeys();
      if device !in devices { AddHandle(device); }
    }

    method AddHandle(device: uint64)
      requires Stored() && device !in devices
      modifies this`devices, this`deviceOrder, this`values, this`owner
      ensures Stored() && fresh(Repr() - old(Repr())) && device in devices
      ensures values == old(values)[device := T.FIRST] && deviceOrder == old(deviceOrder) + [device]
    {
      hide T.DeviceHandle.Valid;
      hide T.DeviceHandle.Value;
      deviceOrder := deviceOrder + [device];
      var handle := new T.DeviceHandle();
      Install(device, handle);
    }

    /** Puts a handle in place, whose objects are new or were its own before. */
    method Install(device: uint64, handle: T.DeviceHandle)
      requires StoredBut(Some(device))
      requires handle.Valid() && forall o <- handle.Repr() :: o != this && (o in owner ==> owner[o] == device)
      modifies this`devices, this`values, this`owner
      ensures Stored() && Repr() == old(Repr()) + handle.Repr()
      ensures values == old(values)[device := handle.Value()]
      ensures device in devices
    {
      hide T.DeviceHandle.Valid;
      hide T.DeviceHandle.Value;
      hide T.DeviceHandle.Repr;
      hide Owns;
      devices := devices[device := handle];
      values := values[device := handle.Value()];
      owner := owner + map o | o in handle.Repr() :: device;
      forall k <- devices
        ensures Holds(k)
      {
        if k != device {
          assert devices[k] == old(devices)[k] && old(Holds(k));
          StillOwns(old(owner), devices[k].Repr(), handle.Repr(), device, k);
        } else {
          HandleOwnsItself(handle);
          OwnsGiven(old(owner), handle.Repr(), device);
        }
      }
    }

    static lemma HandleOwnsItself(handle: T.DeviceHandle)
      ensures handle in handle.Repr()
    {
    }

    static method Operate(handle: T.DeviceHandle, op: T.Op)
      requires handle.Valid()
      modifies handle.Repr()
      ensures handle.Valid() && fresh(handle.Repr() - old(handle.Repr()))
      ensures handle.Value() == T.Step(old(handle.Value()), op)
    {
      hide T.Step;
      match op {
        case BeginControl(endpoint, id, setup, data) => handle.BeginControl(endpoint, id, setup, data);
        case AppendControl(endpoint, id, data) => handle.AppendControl(endpoint, id, data);
        case EndControl(endpoint, id, data) => handle.EndControl(endpoint, id, data);
        case BeginBulk(endpoint, id, data) => handle.BeginBulk(endpoint, id, data);
        case EndBulk(endpoint, id, data) => handle.EndBulk(endpoint, id, data);
        case Abort(endpoint, id) => handle.Abort(endpoint, id);
      }
    }

    /** Drives one handle: the objects of the others are not its own, so they hold what they held. */
    method DriveHandle(device: uint64, op: T.Op)
      requires Stored() && device in devices
      modifies devices[device].Repr()
      ensures StoredBut(Some(device)) && unchanged(this)
      ensures var handle := devices[device];
              && handle.Valid() && fresh(handle.Repr() - old(handle.Repr()))
              && handle.Value() == T.Step(old(values[device]), op)
      ensures old(values[device]).sessions != []
    {
      hide T.Step;
      var handle := devices[device];
      ghost var mine := handle.Repr();
      Operate(handle, op);
      forall k <- devices | k != device
        ensures Holds(k)
      {
        var other := devices[k];
        assert mine !! old(other.Repr());
        assert unchanged(other);
        assert forall s <- other.sessions :: unchanged(s);
      }
    }

    /** Hands an event to a device's handle. */
    method Perform(device: uint64, op: T.Op)
      requires Stored() && device in devices
      modifies this`devices, this`values, this`owner, devices[device].Repr()
      ensures Stored() && fresh(Repr() - old(Repr()))
      ensures old(values[device]).sessions != [] && device in devices
      ensures values == old(values)[device := T.Step(old(values[device]), op)]
    {
      hide T.Step;
      hide T.DeviceHandle.Valid;
      hide T.DeviceHandle.Value;
      hide StoredBut;
      hide Holds;
      HandleIsMine(device);
      OwnObjects(device);
      DriveHandle(device, op);
      Install(device, devices[device]);
    }

    lemma OwnObjects(device: uint64)
      requires Stored() && device in devices
      ensures forall o <- devices[device].Repr() :: o != this && o in owner && owner[o] == device
    {
    }

    /** A packet that mentions a device without an event on it. */
    method MentionOnly(device: uint64, warned: bool)
      requires Valid()
      modifies this
      ensures Valid() && fresh(Repr() - old(Repr())) && Value() == Drive(old(Value()), Mention(device, warned))
    {
      hide Known;
      hide Listed;
      hide StoredBut;
      HandleFor(device);
      if warned { Warn(); }
    }

    method Occur(device: uint64, op: T.Op)
      requires Valid()
      modifies this, Repr()
      ensures Valid() && fresh(Repr() - old(Repr())) && Value() == Drive(old(Value()), Occurs(device, op))
    {
      hide T.Step;
      hide Listed;
      hide Known;
      hide T.DeviceHandle.Valid;
      hide T.DeviceHandle.Value;
      hide StoredBut;
      hide T.DeviceHandle.Repr;
      KnownIsCoherent(Value(), device);
      HandleFor(device);
      HandleIsMine(device);
      SameKeys();
      StepIsListed(values, deviceOrder, device, op);
      Perform(device, op);
    }

    method Process(linktype: uint32, data: Bytes) returns (decoded: bool)
      requires Valid()
      modifies this, Repr()
      ensures Valid() && fresh(Repr() - old(Repr()))
      ensures Value() == Packet(old(Value()), linktype, data)
      ensures decoded <==> Supported(linktype) && Decodes(ReadPacket(linktype, data))
    {
      hide Drive;
      hide Listed;
      hide StoredBut;
      hide T.DeviceHandle.Repr;
      hide ReadDarwin;
      hide ReadUsbPcap;
      hide ReadUsbmon;
      CountPacket();
      if linktype == LINKTYPE_USB_DARWIN {
        decoded := ProcessDarwin(data);
      } else if linktype == LINKTYPE_USBPCAP {
        decoded := ProcessUsbPcap(data);
      } else if linktype == LINKTYPE_USB_LINUX || linktype == LINKTYPE_USB_LINUX_MMAPPED {
        decoded := ProcessUsbmon(data, linktype == LINKTYPE_USB_LINUX_MMAPPED);
      } else {
        if linktype !in unsupportedLinktypes {
          MarkUnsupported(linktype);
          Warn();
        }
        decoded := false;
      }
    }

    method ProcessDarwin(data: Bytes) returns (decoded: bool)
      requires Valid()
      modifies this, Repr()
      ensures Valid() && fresh(Repr() - old(Repr()))
      ensures Value() == Drive(old(Value()), ReadDarwin(data)) && decoded == Decodes(ReadDarwin(data))
    {
      hide Known;
      hide T.Step;
      hide Listed;
      hide StoredBut;
      hide Le16;
      hide Le32;
      hide Le64;
      hide ReadSetup;
      if |data| < DARWIN_HEADER {
        Warn();
        return false;
      }
      if Le16(data) != 0x0100 && Le16(data) != 0x0101 {
        Warn();
        return false;
      }
      var header: nat := data[2];
      if header < DARWIN_HEADER || header > |data| {
        Warn();
        return false;
      }

      var device := Le32(data[24..]) as int * 0x1_0000_0000 + data[29] as int;
      var payload := data[header..header + Min(Le32(data[4..]), |data| - header)];
      var kind, id, endpoint := data[3], Le64(data[16..]), data[30];
      if data[31] == USB_EP_CONTROL {
        if kind == DARWIN_IO_SUBMIT {
          if |payload| < SETUP_SIZE {
            MentionOnly(device, true);
            return false;
          }
          Occur(device, T.BeginControl(endpoint, id, ReadSetup(payload), payload[SETUP_SIZE..]));
        } else if kind == DARWIN_IO_COMPLETE {
          Occur(device, T.EndControl(endpoint, id, payload));
        } else {
          MentionOnly(device, false);
        }
      } else if data[31] == USB_EP_BULK || data[31] == USB_EP_INTERRUPT {
        if kind == DARWIN_IO_SUBMIT {
          Occur(device, T.BeginBulk(endpoint, id, payload));
        } else if kind == DARWIN_IO_COMPLETE {
          Occur(device, T.EndBulk(endpoint, id, payload));
        } else {
          MentionOnly(device, false);
        }
      } else {
        MentionOnly(device, false);
      }
      return true;
    }

    method ProcessUsbPcap(data: Bytes) returns (decoded: bool)
      requires Valid()
      modifies this, Repr()
      ensures Valid() && fresh(Repr() - old(Repr()))
      ensures Value() == Drive(old(Value()), ReadUsbPcap(data)) && decoded == Decodes(ReadUsbPcap(data))
    {
      hide Known;
      hide T.Step;
      hide Listed;
      hide StoredBut;
      hide Le16;
      hide Le32;
      hide Le64;
      hide ReadSetup;
      if |data| < USBPCAP_HEADER {
        Warn();
        return false;
      }
      var header: nat := Le16(data);
      if header < USBPCAP_HEADER || header > |data| {
        Warn();
        return false;
      }

      var device := Le16(data[17..]) as int * 0x1_0000 + Le16(data[19..]) as int;
      var payload := data[header..header + Min(Le32(data[23..]), |data| - header)];
      var id, endpoint := Le64(data[2..]), data[21];
      if data[22] == USBPCAP_CONTROL {
        if header < USBPCAP_CONTROL_HEADER {
          MentionOnly(device, true);
          return false;
        }
        if data[27] == USBPCAP_STAGE_SETUP {
          if |payload| < SETUP_SIZE {
            MentionOnly(device, true);
            return false;
          }
          Occur(device, T.BeginControl(endpoint, id, ReadSetup(payload), payload[SETUP_SIZE..]));
        } else if data[27] == USBPCAP_STAGE_DATA {
          Occur(device, T.AppendControl(endpoint, id, payload));
        } else if data[27] == USBPCAP_STAGE_COMPLETE {
          Occur(device, T.EndControl(endpoint, id, payload));
        } else {
          MentionOnly(device, false);
        }
      } else if data[22] == USBPCAP_BULK || data[22] == USBPCAP_INTERRUPT {
        if data[16] % 2 == 1 {
          Occur(device, T.EndBulk(endpoint, id, payload));
        } else {
          Occur(device, T.BeginBulk(endpoint, id, payload));
        }
      } else {
        MentionOnly(device, false);
      }
      return true;
    }

    method ProcessUsbmon(data: Bytes, mmapped: bool) returns (decoded: bool)
      requires Valid()
      modifies this, Repr()
      ensures Valid() && fresh(Repr() - old(Repr()))
      ensures Value() == Drive(old(Value()), ReadUsbmon(data, mmapped)) && decoded == Decodes(ReadUsbmon(data, mmapped))
    {
      hide Known;
      hide T.Step;
      hide Listed;
      hide StoredBut;
      hide Le16;
      hide Le32;
      hide Le64;
      hide ReadSetup;
      var header := if mmapped then USBMON_MMAPPED_HEADER else USBMON_HEADER;
      if |data| < header {
        Warn();
        return false;
      }

      var device := Le16(data[12..]) as int * 0x100 + data[11] as int;
      var payload := data[header..header + Min(Le32(data[36..]), |data| - header)];
      var id, event, endpoint := Le64(data), data[8], data[10];
      if event == USBMON_ERROR {
        Occur(device, T.Abort(endpoint, id));
        return true;
      }
      if data[9] == USBMON_CONTROL {
        if event == USBMON_SUBMIT {
          if data[14] != 0 {
            MentionOnly(device, true);
            return false;
          }
          Occur(device, T.BeginControl(endpoint, id, ReadSetup(data[40..]), payload));
        } else if event == USBMON_COMPLETE {
          Occur(device, T.EndControl(endpoint, id, payload));
        } else {
          MentionOnly(device, false);
        }
      } else if data[9] == USBMON_BULK || data[9] == USBMON_INTERRUPT {
        if event == USBMON_SUBMIT {
          Occur(device, T.BeginBulk(endpoint, id, payload));
        } else if event == USBMON_COMPLETE {
          Occur(device, T.EndBulk(endpoint, id, payload));
        } else {
          MentionOnly(device, false);
        }
      } else {
        MentionOnly(device, false);
      }
      return true;
    }
  }

  // ---- What containers do to it ----

  method Complains(file: InputFile, ghost start: Capture, ghost done: seq<Item>)
    requires Coherent(start) && file.Valid() && file.Value() == TakeAll(start, done)
    modifies file`warningCount
    ensures file.Valid() && file.Repr() == old(file.Repr()) && file.Value() == TakeAll(start, done + [Complain])
  {
    hide Coherent;
    TakeOne(start, done, Complain);
    hide TakeAll;
    file.Warn();
  }

  method Delivers(file: InputFile, linktype: uint32, data: Bytes, ghost start: Capture, ghost done: seq<Item>)
    requires Coherent(start) && file.Valid() && file.Value() == TakeAll(start, done)
    modifies file, file.Repr()
    ensures file.Valid() && fresh(file.Repr() - old(file.Repr()))
    ensures file.Value() == TakeAll(start, done + [Deliver(linktype, data)])
  {
    hide Coherent;
    hide Packet;
    hide InputFile.Valid;
    hide InputFile.Value;
    TakeOne(start, done, Deliver(linktype, data));
    hide TakeAll;
    var _ := file.Process(linktype, data);
  }
}

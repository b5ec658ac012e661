/** Pairing of transfer submissions and completions on one device address, and the device sessions seen there. */
module Transfers {
  import opened Wire
  import D = Device

  /** A submission waiting for its completion. */
  datatype Pending = Pending(control: bool, setup: D.Setup, data: Bytes)

  const NO_SETUP: D.Setup := D.Setup(0, 0, 0, 0, 0)

  /** Endpoint as stored, and transfer identifier. */
  type Key = (byte, uint64)

  /** The endpoint without its direction bit. */
  function EndpointId(endpoint: byte): byte { endpoint % 0x80 }

  predicate EndpointIn(endpoint: byte) { endpoint >= 0x80 }

  /** An event of a transfer, as the link type decoders report it. */
  datatype Op =
    | BeginControl(endpoint: byte, id: uint64, setup: D.Setup, data: Bytes)
    | AppendControl(endpoint: byte, id: uint64, data: Bytes)
    | EndControl(endpoint: byte, id: uint64, data: Bytes)
    | BeginBulk(endpoint: byte, id: uint64, data: Bytes)
    | EndBulk(endpoint: byte, id: uint64, data: Bytes)
    | Abort(endpoint: byte, id: uint64)
  {
    /** Control transfers are stored without the direction bit, bulk transfers with it. */
    function StoredKey(): Key {
      if BeginControl? || AppendControl? || EndControl? then (EndpointId(endpoint), id) else (endpoint, id)
    }
  }

  /** The transfers in flight, and the completions without one. */
  datatype Correlator = Correlator(inflight: map<Key, Pending>, unmatched: nat)

  const IDLE: Correlator := Correlator(map[], 0)

  /** IN data comes with the completion and OUT data with the submission; the other is used when that is empty. No
      more is handed on than was requested. */
  function ControlPayload(pending: Pending, data: Bytes): Bytes {
    var payload := if pending.setup.In() then if data == [] then pending.data else data
                   else if pending.data != [] then pending.data else data;
    payload[..Min(|payload|, pending.setup.length)]
  }

  function ControlCall(endpoint: byte, setup: D.Setup, data: Bytes): D.Call {
    if setup.In() then D.ControlIn(endpoint, setup, data) else D.ControlOut(endpoint, setup, data)
  }

  function BulkCall(endpoint: byte, pending: Option<Pending>, data: Bytes): D.Call {
    if EndpointIn(endpoint) then D.BulkIn(EndpointId(endpoint), data)
    else D.BulkOut(EndpointId(endpoint), if data == [] && pending.Some? then pending.value.data else data)
  }

  /** What an event does to the transfers in flight, and the call it completes. */
  function Correlate(c: Correlator, op: Op): (Correlator, Option<D.Call>) {
    var key := op.StoredKey();
    match op
    case BeginControl(_, _, setup, data) =>
      (c.(inflight := c.inflight[key := Pending(true, setup, data)]), None)
    case AppendControl(_, _, data) =>
      if key !in c.inflight then (c, None)
      else
        var pending := c.inflight[key];
        (c.(inflight := c.inflight[key := pending.(data := pending.data + data)]), None)
    case EndControl(endpoint, _, data) =>
      if key !in c.inflight || !c.inflight[key].control then (c.(unmatched := c.unmatched + 1), None)
      else
        var pending := c.inflight[key];
        (c.(inflight := c.inflight - {key}),
         Some(ControlCall(EndpointId(endpoint), pending.setup, ControlPayload(pending, data))))
    case BeginBulk(endpoint, _, data) =>
      (c.(inflight := c.inflight[key := Pending(false, NO_SETUP, if EndpointIn(endpoint) then [] else data)]), None)
    case EndBulk(endpoint, _, data) =>
      if key in c.inflight
      then (c.(inflight := c.inflight - {key}), Some(BulkCall(endpoint, Some(c.inflight[key]), data)))
      else (c.(unmatched := c.unmatched + 1), Some(BulkCall(endpoint, None, data)))
    case Abort(endpoint, id) => (c.(inflight := c.inflight - {key} - {(EndpointId(endpoint), id)}), None)
  }

  // ---- Sessions ----

  predicate IsDeviceDescriptorRead(setup: D.Setup) {
    setup.requestType == 0x80 && setup.request == D.USB_REQ_GET_DESCRIPTOR && setup.value / 0x100 == D.USB_DT_DEVICE
  }

  /** A read of a device descriptor other than the one the session knows. */
  predicate Reenumerates(current: D.State, call: D.Call) {
    && (call.ControlIn? || call.ControlOut?)
    && IsDeviceDescriptorRead(call.setup)
    && |call.data| >= D.USB_DT_DEVICE_SIZE
    && current.descriptor.Some?
    && call.data[..D.USB_DT_DEVICE_SIZE] != current.descriptor.value
  }

  lemma ControlReenumerates(current: D.State, endpoint: byte, setup: D.Setup, data: Bytes)
    ensures Reenumerates(current, ControlCall(endpoint, setup, data))
       <==> IsDeviceDescriptorRead(setup) && |data| >= D.USB_DT_DEVICE_SIZE && current.descriptor.Some?
            && data[..D.USB_DT_DEVICE_SIZE] != current.descriptor.value
  {
    hide IsDeviceDescriptorRead;
  }

  /** The sessions after a call: a re-enumeration starts a new one, and the last one takes the call. */
  function Dispatch(sessions: seq<D.State>, call: D.Call): (r: seq<D.State>)
    requires sessions != []
    ensures r != []
  {
    var current := sessions[|sessions| - 1];
    if Reenumerates(current, call) then sessions + [D.Apply(D.NEW, call)]
    else sessions[..|sessions| - 1] + [D.Apply(current, call)]
  }

  /** The value of a device handle. */
  datatype Handle = Handle(correlator: Correlator, sessions: seq<D.State>)

  const FIRST: Handle := Handle(IDLE, [D.NEW])

  function Step(h: Handle, op: Op): (r: Handle)
    requires h.sessions != []
    ensures r.sessions != []
  {
    var (correlator, call) := Correlate(h.correlator, op);
    Handle(correlator, if call.Some? then Dispatch(h.sessions, call.value) else h.sessions)
  }

  /** A bulk completion is handed to the last session, whether or not its submission was seen. */
  lemma EndBulkStep(h: Handle, endpoint: byte, id: uint64, data: Bytes)
    requires h.sessions != []
    ensures var key, c, last := (endpoint, id), h.correlator, |h.sessions| - 1;
            var found := if key in c.inflight then Some(c.inflight[key]) else None;
            Step(h, Op.EndBulk(endpoint, id, data)) ==
              Handle(if found.Some? then c.(inflight := c.inflight - {key}) else c.(unmatched := c.unmatched + 1),
                     h.sessions[..last] + [D.Apply(h.sessions[last], BulkCall(endpoint, found, data))])
  {
    hide D.Apply;
  }

  class DeviceHandle {
    var unmatched: nat
    var inflight: map<Key, Pending>
    var sessions: seq<D.Device>
    ghost var values: seq<D.State>

    ghost function Repr(): set<object>
      reads this
    {
      {this} + set d: object | d in sessions
    }

    /** The sessions are objects of their own, and hold the values. */
    ghost predicate Valid()
      reads this`sessions, this`values, sessions
    {
      && |sessions| == |values| > 0
      && (forall i | 0 <= i < |sessions| :: sessions[i].Value() == values[i])
      && (forall i, j | 0 <= i < j < |sessions| :: sessions[i] != sessions[j])
    }

    ghost function Value(): Handle
      reads this
    {
      Handle(Correlator(inflight, unmatched), values)
    }

    constructor ()
      ensures Valid() && fresh(Repr()) && Value() == FIRST
    {
      unmatched, inflight := 0, map[];
      var first := new D.Device();
      sessions, values := [first], [D.NEW];
    }

    method BeginControl(endpoint: byte, id: uint64, setup: D.Setup, data: Bytes)
      requires Valid()
      modifies this`inflight
      ensures Valid() && Value() == Step(old(Value()), Op.BeginControl(endpoint, id, setup, data))
    {
      inflight := inflight[(EndpointId(endpoint), id) := Pending(true, setup, data)];
    }

    method AppendControl(endpoint: byte, id: uint64, data: Bytes)
      requires Valid()
      modifies this`inflight
      ensures Valid() && Value() == Step(old(Value()), Op.AppendControl(endpoint, id, data))
    {
      var key := (EndpointId(endpoint), id);
      if key !in inflight { return; }
      if |data| == 0 {
        assert inflight[key].data + data == inflight[key].data;
        assert inflight == inflight[key := inflight[key]];
        return;
      }
      inflight := inflight[key := inflight[key].(data := inflight[key].data + data)];
    }

    method EndControl(endpoint: byte, id: uint64, data: Bytes)
      requires Valid()
      modifies Repr()
      ensures Valid() && fresh(Repr() - old(Repr()))
      ensures Value() == Step(old(Value()), Op.EndControl(endpoint, id, data))
    {
      var key := (EndpointId(endpoint), id);
      if key !in inflight || !inflight[key].control {
        unmatched := unmatched + 1;
        return;
      }
      var pending := inflight[key];
      inflight := inflight - {key};

      var payload := data;
      if pending.setup.In() {
        if |payload| == 0 && |pending.data| > 0 { payload := pending.data; }
      } else if |pending.data| > 0 {
        payload := pending.data;
      }

      payload := payload[..Min(|payload|, pending.setup.length)];
      assert payload == ControlPayload(pending, data);
      hide ControlPayload;
      DispatchControl(EndpointId(endpoint), pending.setup, payload);
    }

    method DispatchControl(endpoint: byte, setup: D.Setup, data: Bytes)
      requires Valid()
      modifies this`sessions, this`values, Repr()
      ensures Valid() && fresh(Repr() - old(Repr()))
      ensures values == Dispatch(old(values), ControlCall(endpoint, setup, data))
      ensures inflight == old(inflight) && unmatched == old(unmatched)
    {
      hide D.Apply;
      hide IsDeviceDescriptorRead;
      hide Reenumerates;
      ControlReenumerates(values[|values| - 1], endpoint, setup, data);
      hide ControlCall;
      var last := sessions[|sessions| - 1];
      if IsDeviceDescriptorRead(setup) && |data| >= D.USB_DT_DEVICE_SIZE && last.deviceDescriptor.Some? {
        if data[..D.USB_DT_DEVICE_SIZE] != last.deviceDescriptor.value { StartSession(); }
      }
      Process(ControlCall(endpoint, setup, data));
    }

    method StartSession()
      requires Valid()
      modifies this`sessions, this`values
      ensures Valid() && fresh(Repr() - old(Repr())) && values == old(values) + [D.NEW]
    {
      var session := new D.Device();
      sessions, values := sessions + [session], values + [D.NEW];
    }

    /** Hands a call to the current session. */
    method Process(call: D.Call)
      requires Valid()
      modifies sessions[|sessions| - 1], this`values
      ensures Valid()
      ensures values == old(values)[..|values| - 1] + [D.Apply(old(values)[|values| - 1], call)]
      ensures |values| == old(|values|) && sessions == old(sessions)
    {
      hide D.Apply;
      var last := sessions[|sessions| - 1];
      match call {
        case ControlIn(endpoint, setup, data) => last.ProcessControlPacketIn(endpoint, setup, data);
        case ControlOut(endpoint, setup, data) => last.ProcessControlPacketOut(endpoint, setup, data);
        case BulkIn(endpoint, data) => last.ProcessBulkPacketIn(endpoint, data);
        case BulkOut(endpoint, data) => last.ProcessBulkPacketOut(endpoint, data);
      }
      values := values[|values| - 1 := last.Value()];
    }

    method BeginBulk(endpoint: byte, id: uint64, data: Bytes)
      requires Valid()
      modifies this`inflight
      ensures Valid() && Value() == Step(old(Value()), Op.BeginBulk(endpoint, id, data))
    {
      var pending := Pending(false, NO_SETUP, []);
      if |data| > 0 && !EndpointIn(endpoint) { pending := pending.(data := data); }
      inflight := inflight[(endpoint, id) := pending];
    }

    method EndBulk(endpoint: byte, id: uint64, data: Bytes)
      requires Valid()
      modifies Repr()
      ensures Valid() && Repr() == old(Repr())
      ensures Value() == Step(old(Value()), Op.EndBulk(endpoint, id, data))
    {
      hide D.Apply;
      hide D.Device.Value;
      hide Step;
      hide EndpointId;
      hide EndpointIn;
      EndBulkStep(Value(), endpoint, id, data);
      var key := (endpoint, id);
      var pending := Pending(false, NO_SETUP, []);
      ghost var found := if key in inflight then Some(inflight[key]) else None;
      if key in inflight {
        pending := inflight[key];
        inflight := inflight - {key};
      } else {
        unmatched := unmatched + 1;
      }

      var call := D.BulkIn(EndpointId(endpoint), data);
      if !EndpointIn(endpoint) {
        call := D.BulkOut(EndpointId(endpoint), if |data| == 0 && |pending.data| > 0 then pending.data else data);
      }
      assert call == BulkCall(endpoint, found, data);
      hide BulkCall;
      Process(call);
    }

    method Abort(endpoint: byte, id: uint64)
      requires Valid()
      modifies this`inflight
      ensures Valid() && Value() == Step(old(Value()), Op.Abort(endpoint, id))
    {
      inflight := inflight - {(endpoint, id)};
      inflight := inflight - {(EndpointId(endpoint), id)};
    }
  }
}

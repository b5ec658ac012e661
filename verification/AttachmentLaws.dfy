/** When the configurations a session has stored carry the decoders its device calls for: a configuration keeps those
    due when it was first read in full, whatever the device turns out to be. */
module AttachmentLaws {
  import opened Wire
  import opened Configuration
  import opened ConfigurationLaws
  import D = Device
  import DL = DeviceLaws
  import opened Transfers
  import opened TransferLaws
  import opened SessionLaws
  import opened SessionRuns

  // ---- Reads of configurations ----

  /** A complete descriptor set, and not just its header. */
  predicate WholeSet(data: Bytes) {
    |data| >= 9 && data[1] == 2 && 9 < Le16(data[2..]) <= |data|
  }

  predicate ReadsSet(call: D.Call) {
    && call.ControlIn? && call.endpoint in {0, 0x80}
    && call.setup.requestType in {0, 0x80} && call.setup.request == 6 && call.setup.value / 0x100 == 2
    && WholeSet(call.data)
  }

  function SetOf(call: D.Call): Config
    requires ReadsSet(call)
  {
    Parse(NO_CONFIG, call.data[..Le16(call.data[2..])]).config
  }

  predicate ReadsSetOf(call: D.Call, value: byte) {
    ReadsSet(call) && SetOf(call).value == value
  }

  /** Standard requests to the device and to an interface, in either direction (section 9.3 of the USB 2.0
      specification). */
  lemma StandardTypes(setup: D.Setup)
    ensures setup.Standard() && setup.Recipient() == 0 <==> setup.requestType in {0, 0x80}
    ensures setup.Standard() && setup.Recipient() == 1 <==> setup.requestType in {1, 0x81}
  {
  }

  /** A call stores a configuration exactly when it reads a complete set of a value not known yet. */
  lemma StoresFirst(s: D.State, call: D.Call)
    ensures D.Apply(s, call).configurations
         == if ReadsSet(call) && SetOf(call).value !in s.configurations
            then s.configurations[SetOf(call).value := Attach(D.IdentityOf(s.descriptor), SetOf(call))]
            else s.configurations
  {
    hide Parse;
    hide Attach;
    hide D.ExpertForControl;
    hide D.ExpertForEndpoint;
    hide D.Setup.Standard;
    hide D.Setup.Recipient;
    hide D.WholeBos;
    hide D.IdentityOf;
    if call.ControlIn? || call.ControlOut? { StandardTypes(call.setup); }
  }

  // ---- A session's store, by its calls ----

  /** The first of the calls that reads the configuration. */
  function FirstRead(calls: seq<D.Call>, value: byte): (b: Option<nat>)
    ensures b.Some? ==> b.value < |calls| && ReadsSetOf(calls[b.value], value)
    decreases |calls|
  {
    if calls == [] then None
    else
      var before := FirstRead(calls[..|calls| - 1], value);
      if before.Some? then before
      else if ReadsSetOf(calls[|calls| - 1], value) then Some(|calls| - 1) else None
  }

  /** The first of the calls that a device descriptor is taken from. */
  function FirstTaken(calls: seq<D.Call>): (a: Option<nat>)
    ensures a.Some? ==> a.value < |calls| && Takes(calls[a.value])
    decreases |calls|
  {
    if calls == [] then None
    else
      var before := FirstTaken(calls[..|calls| - 1]);
      if before.Some? then before else if Takes(calls[|calls| - 1]) then Some(|calls| - 1) else None
  }

  /** What the calls tell of the device. */
  function ToldDevice(calls: seq<D.Call>): Option<D.Descriptor> {
    match FirstTaken(calls)
    case None => None
    case Some(a) => Some(Identified(calls[a]))
  }

  lemma {:induction false} DescriptorIsFirst(calls: seq<D.Call>)
    requires Stays(D.NEW, calls) && forall i | 0 <= i < |calls| :: Directed(calls[i])
    ensures ApplyAll(D.NEW, calls).descriptor == ToldDevice(calls)
    decreases |calls|
  {
    hide D.Apply;
    hide Directed;
    hide Takes;
    hide Reenumerates;
    hide Stays;
    if calls == [] {
    } else {
      var init, last := calls[..|calls| - 1], calls[|calls| - 1];
      assert init + [last] == calls;
      StaysMore(D.NEW, init, last);
      DescriptorIsFirst(init);
      DescriptorAfter(ApplyAll(D.NEW, init), last);
    }
  }

  /** The configuration is stored as first read, with the decoders due by then. */
  ghost predicate StoredAsRead(s: D.State, calls: seq<D.Call>, value: byte) {
    match FirstRead(calls, value)
    case None => value !in s.configurations
    case Some(b) =>
      && value in s.configurations
      && s.configurations[value] == Attach(D.IdentityOf(ToldDevice(calls[..b])), SetOf(calls[b]))
  }

  lemma {:induction false} StoreIsFirst(calls: seq<D.Call>, value: byte)
    requires Stays(D.NEW, calls) && forall i | 0 <= i < |calls| :: Directed(calls[i])
    ensures StoredAsRead(ApplyAll(D.NEW, calls), calls, value)
    decreases |calls|
  {
    hide D.Apply;
    hide Directed;
    hide ReadsSet;
    hide SetOf;
    hide Attach;
    hide Stays;
    hide Reenumerates;
    hide ToldDevice;
    if calls == [] {
    } else {
      var init, last := calls[..|calls| - 1], calls[|calls| - 1];
      assert init + [last] == calls;
      StaysMore(D.NEW, init, last);
      StoreIsFirst(init, value);
      DescriptorIsFirst(init);
      StoresFirst(ApplyAll(D.NEW, init), last);
      assert FirstRead(init, value).Some? ==>
          init[..FirstRead(init, value).value] == calls[..FirstRead(init, value).value];
    }
  }

  // ---- Decoders that are due ----

  /** Every stored configuration has the decoders that it calls for on the device known. */
  ghost predicate Due(s: D.State) {
    forall v <- s.configurations :: DL.AttachedFor(D.IdentityOf(s.descriptor), s.configurations[v])
  }

  /** The configuration gets the same decoders whether the device is known or not. */
  ghost predicate Indifferent(id: Identity, config: Config) {
    Attach(Identity(0, 0), config) == Attach(id, config)
  }

  /** The device descriptor was known when the configuration was first read, or makes no difference to it. */
  ghost predicate ReadInTime(calls: seq<D.Call>, value: byte) {
    match FirstRead(calls, value)
    case None => true
    case Some(b) => FirstTaken(calls[..b]).Some? || Indifferent(D.IdentityOf(ToldDevice(calls)), SetOf(calls[b]))
  }

  lemma {:induction false} FirstTakenStays(calls: seq<D.Call>, n: nat)
    requires n <= |calls| && FirstTaken(calls[..n]).Some?
    ensures ToldDevice(calls) == ToldDevice(calls[..n])
    decreases |calls|
  {
    hide Takes;
    hide Identified;
    if n == |calls| {
      assert calls[..n] == calls;
    } else {
      var init := calls[..|calls| - 1];
      assert init[..n] == calls[..n];
      FirstTakenStays(init, n);
    }
  }

  /** What is attached fits exactly when attaching it again gives the same. */
  lemma AttachedForIs(id: Identity, earlier: Identity, config: Config)
    requires Bare(config)
    ensures DL.AttachedFor(id, Attach(earlier, config)) <==> Attach(earlier, config) == Attach(id, config)
  {
    DL.AttachIsFunction(earlier, config);
    hide Attach;
    hide DL.Strip;
  }

  lemma SetIsBare(call: D.Call)
    requires ReadsSet(call)
    ensures Bare(SetOf(call))
  {
    ParsedIsBare(NO_CONFIG, call.data[..Le16(call.data[2..])]);
    hide Parse;
  }

  lemma DueOne(calls: seq<D.Call>, value: byte)
    requires Stays(D.NEW, calls) && forall i | 0 <= i < |calls| :: Directed(calls[i])
    requires value in ApplyAll(D.NEW, calls).configurations
    ensures var s := ApplyAll(D.NEW, calls);
            DL.AttachedFor(D.IdentityOf(s.descriptor), s.configurations[value]) <==> ReadInTime(calls, value)
  {
    hide ApplyAll;
    hide Attach;
    hide DL.AttachedFor;
    hide D.IdentityOf;
    hide ReadsSet;
    hide SetOf;
    hide Stays;
    hide Directed;
    StoreIsFirst(calls, value);
    DescriptorIsFirst(calls);
    var b := FirstRead(calls, value).value;
    SetIsBare(calls[b]);
    AttachedForIs(D.IdentityOf(ToldDevice(calls)), D.IdentityOf(ToldDevice(calls[..b])), SetOf(calls[b]));
    if FirstTaken(calls[..b]).Some? {
      FirstTakenStays(calls, b);
    } else {
      UnknownDevice();
    }
  }

  lemma UnknownDevice()
    ensures D.IdentityOf(None) == Identity(0, 0)
  {
  }

  /** A session's configurations carry the decoders its device calls for if and only if each was first read in full
      after the device descriptor, or gets the same decoders without it. */
  lemma DecodersAreDue(calls: seq<D.Call>)
    requires Stays(D.NEW, calls) && forall i | 0 <= i < |calls| :: Directed(calls[i])
    ensures Due(ApplyAll(D.NEW, calls)) <==> forall v: byte :: ReadInTime(calls, v)
  {
    hide ApplyAll;
    hide DL.AttachedFor;
    hide ReadInTime;
    hide Stays;
    hide Directed;
    var s := ApplyAll(D.NEW, calls);
    forall v: byte
      ensures v in s.configurations ==>
                (DL.AttachedFor(D.IdentityOf(s.descriptor), s.configurations[v]) <==> ReadInTime(calls, v))
      ensures v !in s.configurations ==> ReadInTime(calls, v)
    {
      if v in s.configurations { DueOne(calls, v); } else { NotReadInTime(calls, v); }
    }
  }

  lemma NotReadInTime(calls: seq<D.Call>, value: byte)
    requires Stays(D.NEW, calls) && forall i | 0 <= i < |calls| :: Directed(calls[i])
    requires value !in ApplyAll(D.NEW, calls).configurations
    ensures ReadInTime(calls, value)
  {
    StoreIsFirst(calls, value);
    hide ApplyAll;
  }

  /** The same of every session of every run of events on an address. */
  lemma SessionsAreDue(ops: seq<Op>, i: nat)
    requires i < |RunOps(ops).sessions|
    ensures i < |Spread(Calls(ops))|
    ensures Due(RunOps(ops).sessions[i]) <==> forall v: byte :: ReadInTime(Spread(Calls(ops))[i], v)
  {
    hide RunOps;
    hide Calls;
    hide DispatchAll;
    hide Spread;
    hide Due;
    hide ReadInTime;
    hide Directed;
    hide Stays;
    hide ApplyAll;
    RunIsDispatch(ops);
    CallsAreDirected(ops);
    SessionsAreRuns(Calls(ops));
    var parts := Spread(Calls(ops));
    assert IsRun(DispatchAll(Calls(ops))[i], parts[i]);
    PartsAreDirected(Calls(ops), parts, i);
    DecodersAreDue(parts[i]);
  }

  lemma {:induction false} PartsAreDirected(calls: seq<D.Call>, parts: seq<seq<D.Call>>, i: nat)
    requires Flat(parts) == calls && i < |parts| && forall k | 0 <= k < |calls| :: Directed(calls[k])
    ensures forall k | 0 <= k < |parts[i]| :: Directed(parts[i][k])
    decreases |parts|
  {
    hide Directed;
    var first, rest := parts[0], Flat(parts[1..]);
    assert calls == first + rest;
    if i == 0 {
      assert forall k | 0 <= k < |first| :: first[k] == calls[k];
    } else {
      assert forall k | 0 <= k < |rest| :: rest[k] == calls[|first| + k];
      PartsAreDirected(rest, parts[1..], i - 1);
    }
  }

  // ---- What makes a difference ----

  lemma {:induction false} SameNumberExpert(a: Identity, b: Identity, config: Config, number: byte, i: nat)
    requires i <= |config.interfaces|
    requires forall j | i <= j < |config.interfaces| && config.interfaces[j].number == number ::
               OwnExpert(a, config, j) == OwnExpert(b, config, j)
    ensures NumberExpert(a, config, number, i) == NumberExpert(b, config, number, i)
    decreases |config.interfaces| - i
  {
    hide OwnExpert;
    if i == |config.interfaces| {
    } else {
      SameNumberExpert(a, b, config, number, i + 1);
    }
  }

  /** Knowing the device makes no difference to its configurations, unless it is an Apple one. */
  lemma OtherVendorsAreIndifferent(id: Identity, config: Config)
    requires !id.IsApple()
    ensures Indifferent(id, config)
  {
    forall i | 0 <= i < |config.interfaces|
      ensures AttachedTo(Identity(0, 0), config, i) == AttachedTo(id, config, i)
    {
      SameNumberExpert(Identity(0, 0), id, config, config.interfaces[i].number, 0);
    }
    hide AttachedTo;
    assert Attach(Identity(0, 0), config).interfaces == Attach(id, config).interfaces;
  }

  /** The first setting of a number, from i on, that calls for some decoder. */
  lemma {:induction false} FirstCalling(interfaces: seq<Interface>, number: byte, i: nat) returns (k: nat)
    requires i <= |interfaces|
    ensures i <= k <= |interfaces|
    ensures forall j | i <= j < k && interfaces[j].number == number ::
              !interfaces[j].IsUsbMux() && !interfaces[j].IsDfu()
    ensures k < |interfaces| ==> interfaces[k].number == number && (interfaces[k].IsUsbMux() || interfaces[k].IsDfu())
    decreases |interfaces| - i
  {
    if i == |interfaces|
       || (interfaces[i].number == number && (interfaces[i].IsUsbMux() || interfaces[i].IsDfu())) {
      k := i;
    } else {
      k := FirstCalling(interfaces, number, i + 1);
    }
  }

  lemma WithoutUsbMux(id: Identity, config: Config, number: byte)
    requires forall i: nat :: !StartsUsbMux(config.interfaces, number, i)
    ensures NumberExpert(Identity(0, 0), config, number, 0) == NumberExpert(id, config, number, 0)
  {
    var k := FirstCalling(config.interfaces, number, 0);
    assert !StartsUsbMux(config.interfaces, number, k);
    if k < |config.interfaces| {
      FirstQualifying(Identity(0, 0), config, number, 0, k);
      FirstQualifying(id, config, number, 0, k);
    } else {
      NoneQualifying(Identity(0, 0), config, number, 0);
      NoneQualifying(id, config, number, 0);
    }
  }

  /** On an Apple device in normal mode it makes a difference exactly to configurations with a usbmux interface, which
      gets no usbmux decoder when its configuration is read too early. */
  lemma UsbMuxMakesTheDifference(id: Identity, config: Config)
    requires id.IsApple() && !id.IsAppleDfu() && !id.IsAppleRecovery()
    ensures Indifferent(id, config) <==> forall n: byte, i: nat :: !StartsUsbMux(config.interfaces, n, i)
  {
    if n: byte, i: nat :| StartsUsbMux(config.interfaces, n, i) {
      StartIsUsbMux(id, config, n, i);
      NoEarlyUsbMux(config, n);
      assert Attach(id, config).interfaces[i].expert != Attach(Identity(0, 0), config).interfaces[i].expert;
    } else {
      forall i | 0 <= i < |config.interfaces|
        ensures AttachedTo(Identity(0, 0), config, i) == AttachedTo(id, config, i)
      {
        WithoutUsbMux(id, config, config.interfaces[i].number);
      }
      hide AttachedTo;
      assert Attach(Identity(0, 0), config).interfaces == Attach(id, config).interfaces;
    }
  }

  /** Without knowing the device, an interface number has a DFU decoder exactly when some setting of it is a DFU one. */
  lemma EarlyExpert(config: Config, number: byte)
    ensures NumberExpert(Identity(0, 0), config, number, 0)
         == if exists j :: 0 <= j < |config.interfaces| && config.interfaces[j].number == number
                           && config.interfaces[j].IsDfu()
            then Some(Expert(Dfu, config.value, number, config.TransferSize())) else None
  {
    NumberExpertExists(Identity(0, 0), config, number, 0);
    assert forall j | 0 <= j < |config.interfaces| ::
             OwnExpert(Identity(0, 0), config, j)
             == if config.interfaces[j].IsDfu()
                then Some(Expert(Dfu, config.value, config.interfaces[j].number, config.TransferSize())) else None;
    hide NumberExpert;
    hide OwnExpert;
    hide Config.TransferSize;
  }

  lemma IndifferentEach(id: Identity, config: Config)
    ensures Indifferent(id, config)
       <==> forall i | 0 <= i < |config.interfaces| ::
              AttachedTo(Identity(0, 0), config, i) == AttachedTo(id, config, i)
  {
    hide AttachedTo;
    var a, b := Attach(Identity(0, 0), config), Attach(id, config);
    if forall i | 0 <= i < |config.interfaces| :: AttachedTo(Identity(0, 0), config, i) == AttachedTo(id, config, i) {
      assert a.interfaces == b.interfaces;
    }
    if Indifferent(id, config) {
      forall i | 0 <= i < |config.interfaces|
        ensures AttachedTo(Identity(0, 0), config, i) == AttachedTo(id, config, i)
      {
        assert a.interfaces[i].expert == b.interfaces[i].expert;
      }
    }
  }

  /** In recovery mode it makes a difference to every configuration that has an interface. */
  lemma RecoveryMakesTheDifference(id: Identity, config: Config)
    requires id.IsAppleRecovery()
    ensures Indifferent(id, config) <==> config.interfaces == []
  {
    IndifferentEach(id, config);
    if config.interfaces != [] {
      EarlyExpert(config, config.interfaces[0].number);
      hide NumberExpert;
      assert AttachedTo(Identity(0, 0), config, 0) != AttachedTo(id, config, 0);
    }
    hide Indifferent;
  }

  /** In DFU mode it makes none exactly when all interfaces are numbered 0 and one of them is a DFU one. */
  lemma DfuMakesTheDifference(id: Identity, config: Config)
    requires id.IsAppleDfu()
    ensures Indifferent(id, config)
       <==> || config.interfaces == []
            || (&& (forall i | 0 <= i < |config.interfaces| :: config.interfaces[i].number == 0)
                && exists i :: 0 <= i < |config.interfaces| && config.interfaces[i].IsDfu())
  {
    IndifferentEach(id, config);
    hide Indifferent;
    hide NumberExpert;
    hide Interface.IsDfu;
    hide Config.TransferSize;
    forall i | 0 <= i < |config.interfaces|
      ensures AttachedTo(Identity(0, 0), config, i) == AttachedTo(id, config, i)
         <==> config.interfaces[i].number == 0
              && exists j :: 0 <= j < |config.interfaces| && config.interfaces[j].number == 0
                             && config.interfaces[j].IsDfu()
    {
      EarlyExpert(config, config.interfaces[i].number);
    }
    hide AttachedTo;
    if config.interfaces != [] && Indifferent(id, config) {
      assert AttachedTo(Identity(0, 0), config, 0) == AttachedTo(id, config, 0);
    }
  }

  lemma NoEarlyUsbMux(config: Config, number: byte)
    ensures var expert := NumberExpert(Identity(0, 0), config, number, 0); expert.Some? ==> !expert.value.kind.UsbMux?
  {
    NumberExpertExists(Identity(0, 0), config, number, 0);
    hide NumberExpert;
  }
}

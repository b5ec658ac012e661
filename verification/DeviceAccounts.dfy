/** What a device has on record, as its calls alone tell it: counts, texts, capabilities, alternate settings, and
    replies out of line. */
module DeviceAccounts {
  import opened Wire
  import D = Device
  import Configuration
  import opened ConfigurationLaws
  import Utf16
  import opened SessionRuns
  import opened AttachmentLaws
  import opened Enumeration

  // ---- Counts ----

  predicate OnControl(call: D.Call) { call.ControlIn? || call.ControlOut? }

  /** The data of the control transfers, or of the others, in order. */
  function Payloads(calls: seq<D.Call>, control: bool): seq<Bytes>
    decreases |calls|
  {
    if calls == [] then []
    else
      var before, last := Payloads(calls[..|calls| - 1], control), calls[|calls| - 1];
      if OnControl(last) == control then before + [last.data] else before
  }

  /** Every transfer is counted once, with the bytes it carries. */
  lemma {:induction false} CallsAreCounted(calls: seq<D.Call>)
    ensures var s := ApplyAll(D.NEW, calls);
            && s.packets == |Payloads(calls, false)| && s.bytes == |Flat(Payloads(calls, false))|
            && s.controlPackets == |Payloads(calls, true)| && s.controlBytes == |Flat(Payloads(calls, true))|
    decreases |calls|
  {
    hide D.Apply;
    if calls == [] {
    } else {
      var init, last := calls[..|calls| - 1], calls[|calls| - 1];
      CallsAreCounted(init);
      CountStep(ApplyAll(D.NEW, init), last);
      FlatOfLast(Payloads(init, OnControl(last)), last.data);
    }
  }

  lemma CountStep(s: D.State, call: D.Call)
    ensures var after, n := D.Apply(s, call), |call.data|;
            if OnControl(call)
            then after.packets == s.packets && after.bytes == s.bytes
                 && after.controlPackets == s.controlPackets + 1 && after.controlBytes == s.controlBytes + n
            else after.packets == s.packets + 1 && after.bytes == s.bytes + n
                 && after.controlPackets == s.controlPackets && after.controlBytes == s.controlBytes
  {
    hide D.ExpertForControl;
    hide D.ExpertForEndpoint;
    hide D.ReadDescriptor;
    hide D.Setup.Standard;
    hide D.Setup.Recipient;
    if call.ControlIn? { RepliesKeep(Counted(s, call), call.setup, call.data); }
  }

  /** The device with a control transfer counted. */
  function Counted(s: D.State, call: D.Call): D.State {
    s.(controlPackets := s.controlPackets + 1, controlBytes := s.controlBytes + |call.data|)
  }

  /** Reading a descriptor counts nothing and selects nothing, and too short a reply is not looked at. */
  lemma RepliesKeep(s: D.State, setup: D.Setup, data: Bytes)
    ensures var after := D.ReadDescriptor(s, setup, data);
            && after.packets == s.packets && after.bytes == s.bytes
            && after.controlPackets == s.controlPackets && after.controlBytes == s.controlBytes
            && after.alternates == s.alternates && (|data| < 2 ==> after == s)
  {
    hide D.ReadConfiguration;
    ConfigurationKeeps(s, data);
  }

  lemma ConfigurationKeeps(s: D.State, data: Bytes)
    ensures var after := D.ReadConfiguration(s, data);
            && after.packets == s.packets && after.bytes == s.bytes
            && after.controlPackets == s.controlPackets && after.controlBytes == s.controlBytes
            && after.alternates == s.alternates && after.strings == s.strings
            && after.bosDescriptors == s.bosDescriptors
  {
    hide Configuration.Parse;
    hide Configuration.Attach;
  }

  // ---- Replies to descriptor requests (section 9.4.3 of the USB 2.0 specification) ----

  /** A reply to a GET_DESCRIPTOR request to the device, of at least two bytes. */
  predicate Replies(call: D.Call) {
    && call.ControlIn? && call.endpoint in {0, 0x80} && call.setup.requestType in {0, 0x80} && call.setup.request == 6
    && |call.data| >= 2
  }

  /** A whole string descriptor; the table of languages, under index 0, is none. */
  predicate TellsText(call: D.Call, index: byte) {
    && Replies(call) && index != 0 && call.setup.value == 0x300 + index as int
    && call.data[1] == 3 && 2 <= call.data[0] <= |call.data|
  }

  /** The text of a string descriptor, without its header and without what follows it. */
  function Text(call: D.Call): Bytes
    requires |call.data| >= 2 && 2 <= call.data[0] <= |call.data|
  {
    Utf16.Utf8All(Utf16.CodePoints(Utf16.Units(call.data[2..call.data[0]])))
  }

  /** A whole object store: its header alone is one only when it announces no capabilities. */
  predicate TellsCapabilities(call: D.Call) {
    && Replies(call) && call.setup.value / 0x100 == 0x0F && call.data[1] == 0x0F && |call.data| >= 5
    && 5 <= Total(call.data) <= |call.data| && (Total(call.data) == 5 ==> call.data[4] == 0)
  }

  /** The length a set declares in the two bytes behind its header. */
  function Total(data: Bytes): nat
    requires |data| >= 4
  {
    data[2] + data[3] as int * 0x100
  }

  /** A descriptor of another type than asked for, or a complete set that is not made of whole descriptors. */
  predicate IsOdd(call: D.Call) {
    && Replies(call)
    && (|| call.data[1] != call.setup.value / 0x100
        || (&& call.data[1] == 2 && |call.data| >= 9 && 9 < Total(call.data) <= |call.data|
            && !Tiled(call.data[..Total(call.data)])))
  }

  lemma RepliesAreRead(s: D.State, call: D.Call)
    ensures Replies(call) ==> |call.data| >= 2
    ensures Replies(call) ==> D.Apply(s, call) == D.ReadDescriptor(Counted(s, call), call.setup, call.data)
    ensures var after := D.Apply(s, call);
            !Replies(call) ==> after.strings == s.strings && after.bosDescriptors == s.bosDescriptors
                               && after.anomalies == s.anomalies
  {
    hide D.ExpertForControl;
    hide D.ExpertForEndpoint;
    hide D.ReadDescriptor;
    hide D.Setup.Standard;
    hide D.Setup.Recipient;
    if OnControl(call) {
      StandardTypes(call.setup);
      RepliesKeep(Counted(s, call), call.setup, call.data);
    }
  }

  lemma TextStep(s: D.State, call: D.Call, index: byte)
    ensures var after := D.Apply(s, call).strings;
            if TellsText(call, index) then index in after && after[index] == Text(call)
            else (index in after <==> index in s.strings) && (index in after ==> after[index] == s.strings[index])
  {
    hide D.Apply;
    hide D.ReadConfiguration;
    hide D.WholeBos;
    ConfigurationKeeps(Counted(s, call), call.data);
    hide Replies;
    RepliesAreRead(s, call);
  }

  /** A text is known exactly when a whole string descriptor was read under its index, and it is that of the last. */
  lemma {:induction false} TextIsLastTold(calls: seq<D.Call>, index: byte, k: int)
    requires -1 <= k < |calls| && (k >= 0 ==> TellsText(calls[k], index))
    requires forall j | k < j < |calls| :: !TellsText(calls[j], index)
    ensures var strings := ApplyAll(D.NEW, calls).strings;
            if k == -1 then index !in strings else index in strings && strings[index] == Text(calls[k])
    decreases |calls|
  {
    hide D.Apply;
    hide TellsText;
    hide Text;
    if calls == [] {
    } else {
      var init, last := calls[..|calls| - 1], calls[|calls| - 1];
      TextStep(ApplyAll(D.NEW, init), last, index);
      if k < |init| { TextIsLastTold(init, index, k); }
    }
  }

  /** The object stores told, each cut to the length it declares. */
  function Capabilities(calls: seq<D.Call>): seq<Bytes>
    decreases |calls|
  {
    if calls == [] then []
    else
      var before, last := Capabilities(calls[..|calls| - 1]), calls[|calls| - 1];
      if TellsCapabilities(last) then before + [last.data[..Total(last.data)]] else before
  }

  lemma TotalIs(data: Bytes)
    requires |data| >= 4
    ensures Le16(data[2..]) == Total(data)
  {
    TwoDigits(data[3], data[2], 0);
    hide Number;
  }

  lemma CapabilityStep(s: D.State, call: D.Call)
    ensures D.Apply(s, call).bosDescriptors
         == if TellsCapabilities(call) then s.bosDescriptors + [call.data[..Total(call.data)]] else s.bosDescriptors
  {
    hide D.Apply;
    hide D.ReadConfiguration;
    ConfigurationKeeps(Counted(s, call), call.data);
    hide Replies;
    RepliesAreRead(s, call);
    if |call.data| >= 4 { TotalIs(call.data); }
    hide Le16;
    hide Total;
  }

  /** All whole object stores are kept, in the order they were read. */
  lemma {:induction false} CapabilitiesAreKept(calls: seq<D.Call>)
    ensures ApplyAll(D.NEW, calls).bosDescriptors == Capabilities(calls)
    decreases |calls|
  {
    hide D.Apply;
    hide TellsCapabilities;
    hide Total;
    if calls == [] {
    } else {
      CapabilitiesAreKept(calls[..|calls| - 1]);
      CapabilityStep(ApplyAll(D.NEW, calls[..|calls| - 1]), calls[|calls| - 1]);
    }
  }

  function OddReplies(calls: seq<D.Call>): nat
    decreases |calls|
  {
    if calls == [] then 0
    else OddReplies(calls[..|calls| - 1]) + (if IsOdd(calls[|calls| - 1]) then 1 else 0)
  }

  lemma OddStep(s: D.State, call: D.Call)
    ensures D.Apply(s, call).anomalies == s.anomalies + if IsOdd(call) then 1 else 0
  {
    hide D.Apply;
    hide Configuration.Parse;
    hide Configuration.Attach;
    hide Replies;
    hide Tiled;
    RepliesAreRead(s, call);
    if |call.data| >= 4 {
      TotalIs(call.data);
      if Total(call.data) <= |call.data| { WholeIsAccepted(Configuration.NO_CONFIG, call.data[..Total(call.data)]); }
    }
    hide Le16;
    hide Total;
  }

  /** Exactly the replies out of line are noted. */
  lemma {:induction false} OddRepliesAreNoted(calls: seq<D.Call>)
    ensures ApplyAll(D.NEW, calls).anomalies == OddReplies(calls)
    decreases |calls|
  {
    hide D.Apply;
    hide IsOdd;
    if calls == [] {
    } else {
      OddRepliesAreNoted(calls[..|calls| - 1]);
      OddStep(ApplyAll(D.NEW, calls[..|calls| - 1]), calls[|calls| - 1]);
    }
  }

  // ---- Alternate settings (sections 9.4.7 and 9.4.10) ----

  /** A SET_INTERFACE request for the interface. */
  predicate SetsInterface(call: D.Call, number: byte) {
    && call.ControlOut? && call.endpoint in {0, 0x80} && call.setup.requestType in {1, 0x81} && call.setup.request == 11
    && call.setup.index % 0x100 == number
  }

  lemma SettingStep(s: D.State, call: D.Call, number: byte)
    ensures var after := D.Apply(s, call).alternates;
            if SetsInterface(call, number) then number in after && after[number] == call.setup.value % 0x100
            else if Selects(call) then after == map[]
            else (number in after <==> number in s.alternates)
                 && (number in after ==> after[number] == s.alternates[number])
  {
    hide D.ExpertForControl;
    hide D.ExpertForEndpoint;
    hide D.ReadDescriptor;
    hide D.Setup.Standard;
    hide D.Setup.Recipient;
    if OnControl(call) {
      StandardTypes(call.setup);
      RepliesKeep(Counted(s, call), call.setup, call.data);
    }
  }

  /** An interface has the setting selected for it last, and none when the configuration was set since. */
  lemma {:induction false} SettingIsLastSelected(calls: seq<D.Call>, number: byte, k: int)
    requires -1 <= k < |calls| && (k >= 0 ==> SetsInterface(calls[k], number) || Selects(calls[k]))
    requires forall j | k < j < |calls| :: !SetsInterface(calls[j], number) && !Selects(calls[j])
    ensures var alternates := ApplyAll(D.NEW, calls).alternates;
            if k == -1 || Selects(calls[k]) then number !in alternates
            else number in alternates && alternates[number] == calls[k].setup.value % 0x100
    decreases |calls|
  {
    hide D.Apply;
    if calls == [] {
    } else {
      var init, last := calls[..|calls| - 1], calls[|calls| - 1];
      SettingStep(ApplyAll(D.NEW, init), last, number);
      assert !(SetsInterface(last, number) && Selects(last));
      hide SetsInterface;
      hide Selects;
      if k < |init| { SettingIsLastSelected(init, number, k); }
    }
  }
}

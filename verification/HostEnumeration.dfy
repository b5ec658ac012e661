/** How a host enumerates a device, what that tells of it, and that it may be done again. */
module HostEnumeration {
  import opened Wire
  import D = Device
  import opened Configuration
  import opened ConfigurationLaws
  import TL = TransferLaws
  import opened SessionLaws
  import opened SessionRuns
  import opened Deliveries
  import opened Enumeration
  import opened AttachmentLaws
  import opened DeviceCaptures
  import opened Conversations

  // ---- Requests of a host ----

  function DescriptorSetup(kind: byte, index: byte, length: uint16): D.Setup {
    D.Setup(0x80, 6, kind as int * 0x100 + index as int, 0, length)
  }

  /** A read of a descriptor, of as many bytes as are asked for. */
  function GetDescriptor(kind: byte, index: byte, data: Bytes, length: uint16): TL.Transfer {
    TL.Transfer(TL.ControlType, 0x80, DescriptorSetup(kind, index, length), data[..Min(|data|, length)], false)
  }

  function Reading(kind: byte, index: byte, data: Bytes, length: uint16): D.Call {
    D.ControlIn(0, DescriptorSetup(kind, index, length), data[..Min(|data|, length)])
  }

  lemma ReadingIs(kind: byte, index: byte, data: Bytes, length: uint16)
    ensures var t := GetDescriptor(kind, index, data, length);
            Writable(t) && t.Expected() == Reading(kind, index, data, length)
  {
    var cut := data[..Min(|data|, length)];
    assert cut[..Min(|cut|, length)] == cut;
  }

  lemma ReadingKind(kind: byte, index: byte)
    ensures (kind as int * 0x100 + index as int) / 0x100 == kind
  {
  }

  /** Reads of descriptors are standard requests; what they tell depends on the kind. */
  lemma ReadingIsPlain(kind: byte, index: byte, data: Bytes, length: uint16)
    ensures var call := Reading(kind, index, data, length);
            && TL.Directed(call) && !Bulk(call) && !Requests(call) && !Selects(call)
            && (Reads(call) <==> kind == D.USB_DT_DEVICE && |call.data| >= D.USB_DT_DEVICE_SIZE)
            && (ReadsSet(call) <==> kind == USB_DT_CONFIG && WholeSet(call.data))
  {
    ReadingKind(kind, index);
    hide WholeSet;
  }

  function Selecting(value: byte): TL.Transfer {
    TL.Transfer(TL.ControlType, 0, D.Setup(0, 9, value, 0, 0), [], false)
  }

  function SelectCall(value: byte): D.Call {
    D.ControlOut(0, D.Setup(0, 9, value, 0, 0), [])
  }

  lemma SelectingIs(value: byte)
    ensures Writable(Selecting(value)) && Selecting(value).Expected() == SelectCall(value)
    ensures var call := SelectCall(value);
            && TL.Directed(call) && !Bulk(call) && !Requests(call) && !Reads(call) && !ReadsSet(call)
            && Selects(call) && Selection(call) == value
  {
  }

  // ---- Lists of calls, put together ----

  /** Calls of the device that no decoder is asked about. */
  predicate Plain(calls: seq<D.Call>, d: D.Descriptor) {
    OfDevice(calls, d) && forall i | 0 <= i < |calls| :: !Bulk(calls[i]) && !Requests(calls[i])
  }

  predicate NothingRead(calls: seq<D.Call>) {
    forall i | 0 <= i < |calls| :: !ReadsSet(calls[i])
  }

  predicate NoSelection(calls: seq<D.Call>) {
    forall i | 0 <= i < |calls| :: !Selects(calls[i])
  }

  lemma PlainConcat(a: seq<D.Call>, b: seq<D.Call>, d: D.Descriptor)
    ensures Plain(a, d) && Plain(b, d) ==> Plain(a + b, d)
    ensures NoSelection(a) && NoSelection(b) ==> NoSelection(a + b)
    ensures NothingRead(a) && NothingRead(b) ==> NothingRead(a + b)
  {
    hide TL.Directed;
    hide SameDevice;
    hide Bulk;
    hide Requests;
    hide Selects;
    hide ReadsSet;
    assert forall i | 0 <= i < |a + b| :: (a + b)[i] == if i < |a| then a[i] else b[i - |a|];
  }

  lemma {:induction false} NothingIsFirst(calls: seq<D.Call>, value: byte)
    requires NothingRead(calls)
    ensures FirstRead(calls, value) == None
    decreases |calls|
  {
    hide ReadsSet;
    if calls == [] {
    } else {
      NothingIsFirst(calls[..|calls| - 1], value);
    }
  }

  lemma {:induction false} FirstTakenConcat(a: seq<D.Call>, b: seq<D.Call>)
    ensures FirstTaken(a + b).Some? <==> FirstTaken(a).Some? || FirstTaken(b).Some?
    decreases |b|
  {
    hide Takes;
    if b == [] {
      assert a + b == a;
    } else {
      assert (a + b)[..|a + b| - 1] == a + b[..|b| - 1];
      FirstTakenConcat(a, b[..|b| - 1]);
    }
  }

  lemma {:induction false} SelectionStays(earlier: seq<D.Call>, calls: seq<D.Call>)
    requires NoSelection(calls)
    ensures LastSelection(earlier + calls) == LastSelection(earlier)
    decreases |calls|
  {
    hide Selects;
    if calls == [] {
      assert earlier + calls == earlier;
    } else {
      assert (earlier + calls)[..|earlier + calls| - 1] == earlier + calls[..|calls| - 1];
      SelectionStays(earlier, calls[..|calls| - 1]);
    }
  }

  lemma OfDeviceConcat(a: seq<D.Call>, b: seq<D.Call>, d: D.Descriptor)
    requires OfDevice(a, d) && OfDevice(b, d)
    ensures OfDevice(a + b, d)
  {
    hide TL.Directed;
    hide SameDevice;
  }

  lemma DescribesConcat(a: seq<D.Call>, b: seq<D.Call>, d: D.Descriptor, description: Description)
    requires Describes(a, d, description) && Describes(b, d, description)
    ensures Describes(a + b, d, description)
  {
    hide OfDevice;
    hide Description.CanPrint;
    hide Description.Encoded;
    hide ReadsSetOf;
    OfDeviceConcat(a, b, d);
    FirstReadConcat(a, b, description.value);
    var first, second := FirstRead(a, description.value), FirstRead(b, description.value);
    if first.Some? {
      assert (a + b)[..first.value] == a[..first.value];
    } else if second.Some? {
      assert (a + b)[..|a| + second.value] == a + b[..second.value];
      FirstTakenConcat(a, b[..second.value]);
    }
    hide FirstRead;
    hide FirstTaken;
  }

  // ---- Enumeration ----

  /** The first eight bytes of the device descriptor, and then all of it. */
  function DeviceReads(fields: DeviceFields): seq<TL.Transfer> {
    [GetDescriptor(D.USB_DT_DEVICE, 0, fields.Encoded(), 8),
     GetDescriptor(D.USB_DT_DEVICE, 0, fields.Encoded(), D.USB_DT_DEVICE_SIZE)]
  }

  /** Two plain reads, of which the second is taken in. */
  lemma TwoPlainReads(a: D.Call, b: D.Call, d: D.Descriptor)
    requires TL.Directed(a) && SameDevice(a, d) && !Bulk(a) && !Requests(a) && !Selects(a) && !ReadsSet(a)
    requires TL.Directed(b) && SameDevice(b, d) && !Bulk(b) && !Requests(b) && !Selects(b) && !ReadsSet(b)
    requires Takes(b)
    ensures Plain([a, b], d) && NoSelection([a, b]) && NothingRead([a, b]) && FirstTaken([a, b]).Some?
  {
    hide TL.Directed;
    hide SameDevice;
    hide Bulk;
    hide Requests;
    hide Selects;
    hide ReadsSet;
    hide Takes;
    assert [a, b][..1] == [a];
  }

  lemma DeviceReadsAre(fields: DeviceFields)
    ensures var calls, d := CallsOf(DeviceReads(fields)), fields.Encoded();
            Plain(calls, d) && NoSelection(calls) && NothingRead(calls) && FirstTaken(calls).Some?
    ensures AllWritable(DeviceReads(fields))
  {
    hide TL.Directed;
    hide Bulk;
    hide Requests;
    hide Selects;
    hide ReadsSet;
    hide FirstTaken;
    hide Plain;
    hide NoSelection;
    hide NothingRead;
    hide CallsOf;
    hide Writable;
    var d := fields.Encoded();
    DeviceIsIdentified(fields);
    hide DeviceFields.Encoded;
    var a, b := Reading(D.USB_DT_DEVICE, 0, d, 8), Reading(D.USB_DT_DEVICE, 0, d, D.USB_DT_DEVICE_SIZE);
    ReadingIs(D.USB_DT_DEVICE, 0, d, 8);
    ReadingIs(D.USB_DT_DEVICE, 0, d, D.USB_DT_DEVICE_SIZE);
    ReadingIsPlain(D.USB_DT_DEVICE, 0, d, 8);
    ReadingIsPlain(D.USB_DT_DEVICE, 0, d, D.USB_DT_DEVICE_SIZE);
    assert d[..18] == d;
    assert Takes(b) && Identified(b) == d;
    DeviceCalls(fields);
    TwoPlainReads(a, b, d);
  }

  lemma DeviceCalls(fields: DeviceFields)
    ensures var d := fields.Encoded();
            CallsOf(DeviceReads(fields))
            == [Reading(D.USB_DT_DEVICE, 0, d, 8), Reading(D.USB_DT_DEVICE, 0, d, D.USB_DT_DEVICE_SIZE)]
  {
    hide DeviceFields.Encoded;
    hide TL.Transfer.Expected;
    var d, all := fields.Encoded(), DeviceReads(fields);
    ReadingIs(D.USB_DT_DEVICE, 0, d, 8);
    ReadingIs(D.USB_DT_DEVICE, 0, d, D.USB_DT_DEVICE_SIZE);
    hide GetDescriptor;
    hide Reading;
    CallsMore([], all[0]);
    CallsMore([all[0]], all[1]);
    assert [] + [all[0]] == [all[0]] && [all[0]] + [all[1]] == all;
  }

  predicate AllPrintable(descriptions: seq<Description>) {
    forall i | 0 <= i < |descriptions| :: descriptions[i].CanPrint()
  }

  /** Of each configuration the header, which tells the length, and then all of it. */
  function ConfigurationReads(descriptions: seq<Description>): seq<TL.Transfer>
    requires AllPrintable(descriptions)
    decreases |descriptions|
  {
    if descriptions == [] then []
    else
      var n := |descriptions| - 1;
      ConfigurationReads(descriptions[..n])
      + [GetDescriptor(USB_DT_CONFIG, n % 0x100, descriptions[n].Encoded(), USB_DT_CONFIG_SIZE)]
      + [GetDescriptor(USB_DT_CONFIG, n % 0x100, descriptions[n].Encoded(), 0xFFFF)]
  }

  /** A header alone is no set; the second read is the set described. */
  lemma ConfigurationReadingIs(description: Description, index: byte)
    requires description.CanPrint()
    ensures !ReadsSet(Reading(USB_DT_CONFIG, index, description.Encoded(), USB_DT_CONFIG_SIZE))
    ensures var call := Reading(USB_DT_CONFIG, index, description.Encoded(), 0xFFFF);
            ReadsSetOf(call, description.value) && call.data == description.Encoded()
  {
    var data := description.Encoded();
    DescriptionIsWhole(description);
    DescriptionIsRead(description);
    ReadingIsPlain(USB_DT_CONFIG, index, data, USB_DT_CONFIG_SIZE);
    ReadingIsPlain(USB_DT_CONFIG, index, data, 0xFFFF);
    hide Description.Encoded;
    hide Description.CanPrint;
    hide Description.Parsed;
    assert data[..9][2..][..2] == data[2..][..2];
    Le16Prefix(data[..9][2..]);
    Le16Prefix(data[2..]);
    hide Le16;
    assert data[..Min(|data|, 0xFFFF)] == data;
    SetIsDescription(Reading(USB_DT_CONFIG, index, data, 0xFFFF), description);
    hide SetOf;
  }

  /** The two calls that read a configuration. */
  function TwoReads(description: Description, index: byte): seq<D.Call>
    requires description.CanPrint()
  {
    var data := description.Encoded();
    [Reading(USB_DT_CONFIG, index, data, USB_DT_CONFIG_SIZE), Reading(USB_DT_CONFIG, index, data, 0xFFFF)]
  }

  /** What reading one more configuration adds. */
  lemma ConfigurationCalls(descriptions: seq<Description>)
    requires descriptions != [] && AllPrintable(descriptions)
    ensures var n := |descriptions| - 1;
            && AllPrintable(descriptions[..n])
            && CallsOf(ConfigurationReads(descriptions))
               == CallsOf(ConfigurationReads(descriptions[..n])) + TwoReads(descriptions[n], n % 0x100)
  {
    hide TL.Transfer.Expected;
    hide Description.CanPrint;
    hide Description.Encoded;
    hide GetDescriptor;
    hide Reading;
    hide CallsOf;
    hide Writable;
    var n := |descriptions| - 1;
    assert forall i | 0 <= i < n :: descriptions[..n][i] == descriptions[i];
    var data := descriptions[n].Encoded();
    var a := GetDescriptor(USB_DT_CONFIG, n % 0x100, data, USB_DT_CONFIG_SIZE);
    var b := GetDescriptor(USB_DT_CONFIG, n % 0x100, data, 0xFFFF);
    ReadingIs(USB_DT_CONFIG, n % 0x100, data, USB_DT_CONFIG_SIZE);
    ReadingIs(USB_DT_CONFIG, n % 0x100, data, 0xFFFF);
    var before := ConfigurationReads(descriptions[..n]);
    assert ConfigurationReads(descriptions) == before + [a] + [b];
    hide ConfigurationReads;
    CallsMore(before, a);
    CallsMore(before + [a], b);
    assert [a.Expected()] + [b.Expected()] == TwoReads(descriptions[n], n % 0x100);
    Associates(CallsOf(before), [a.Expected()], [b.Expected()]);
  }

  lemma {:induction false} ConfigurationReadsAreWritable(descriptions: seq<Description>)
    requires AllPrintable(descriptions)
    ensures AllWritable(ConfigurationReads(descriptions))
    decreases |descriptions|
  {
    hide Description.CanPrint;
    hide Description.Encoded;
    if descriptions == [] {
    } else {
      var n := |descriptions| - 1;
      assert forall i | 0 <= i < n :: descriptions[..n][i] == descriptions[i];
      ConfigurationReadsAreWritable(descriptions[..n]);
      ReadingIs(USB_DT_CONFIG, n % 0x100, descriptions[n].Encoded(), USB_DT_CONFIG_SIZE);
      ReadingIs(USB_DT_CONFIG, n % 0x100, descriptions[n].Encoded(), 0xFFFF);
      hide Writable;
      hide GetDescriptor;
    }
  }

  /** The second of the two reads is that of the set. */
  lemma TwoReadsFind(description: Description, index: byte, value: byte)
    requires description.CanPrint()
    ensures FirstRead(TwoReads(description, index), value) == if description.value == value then Some(1) else None
  {
    var data := description.Encoded();
    var a, b := Reading(USB_DT_CONFIG, index, data, USB_DT_CONFIG_SIZE), Reading(USB_DT_CONFIG, index, data, 0xFFFF);
    hide Description.Encoded;
    hide Description.CanPrint;
    ConfigurationReadingIs(description, index);
    hide Reading;
    hide ReadsSet;
    hide SetOf;
    assert [a][..0] == [] && [a, b][..1] == [a];
    assert FirstRead([a], value) == None;
  }

  lemma TwoReadsAre(description: Description, index: byte, d: D.Descriptor)
    requires description.CanPrint()
    ensures var calls := TwoReads(description, index);
            Plain(calls, d) && NoSelection(calls) && calls[1].data == description.Encoded()
  {
    var data := description.Encoded();
    hide Description.Encoded;
    hide Description.CanPrint;
    ConfigurationReadingIs(description, index);
    ReadingIsPlain(USB_DT_CONFIG, index, data, USB_DT_CONFIG_SIZE);
    ReadingIsPlain(USB_DT_CONFIG, index, data, 0xFFFF);
    hide Reading;
    hide Reads;
    hide ReadsSet;
    hide SetOf;
    hide TL.Directed;
    hide Selects;
    hide Requests;
    hide Bulk;
  }

  /** The calls select nothing and read the configurations: the k-th as the first of its value, or none of that
      value. */
  ghost predicate Tells(calls: seq<D.Call>, descriptions: seq<Description>, k: nat, d: D.Descriptor, value: byte) {
    && AllPrintable(descriptions) && k <= |descriptions|
    && Plain(calls, d) && NoSelection(calls)
    && var first := FirstRead(calls, value);
       if k < |descriptions| then first.Some? && calls[first.value].data == descriptions[k].Encoded() else first == None
  }

  lemma TellsMore(before: seq<D.Call>, descriptions: seq<Description>, k: nat, d: D.Descriptor, value: byte)
    requires descriptions != [] && AllPrintable(descriptions) && k <= |descriptions|
    requires k < |descriptions| ==> descriptions[k].value == value
    requires k == |descriptions| ==> descriptions[|descriptions| - 1].value != value
    requires Tells(before, descriptions[..|descriptions| - 1], Min(k, |descriptions| - 1), d, value)
    ensures var n := |descriptions| - 1;
            Tells(before + TwoReads(descriptions[n], n % 0x100), descriptions, k, d, value)
  {
    hide Plain;
    hide NoSelection;
    hide FirstRead;
    hide TwoReads;
    hide Description.Encoded;
    hide Description.CanPrint;
    var n := |descriptions| - 1;
    var two := TwoReads(descriptions[n], n % 0x100);
    TwoReadsFind(descriptions[n], n % 0x100, value);
    TwoReadsAre(descriptions[n], n % 0x100, d);
    PlainConcat(before, two, d);
    FirstReadConcat(before, two, value);
    assert forall i | 0 <= i < n :: descriptions[..n][i] == descriptions[i];
  }

  /** Of all configurations read, each value is told by its first description. */
  lemma {:induction false} ConfigurationReadsAre(descriptions: seq<Description>, k: nat, d: D.Descriptor, value: byte)
    requires AllPrintable(descriptions) && k <= |descriptions|
    requires forall i | 0 <= i < k :: descriptions[i].value != value
    requires k < |descriptions| ==> descriptions[k].value == value
    ensures Tells(CallsOf(ConfigurationReads(descriptions)), descriptions, k, d, value)
    decreases |descriptions|
  {
    hide Description.Encoded;
    hide Description.CanPrint;
    if descriptions == [] {
      NothingPlain(d);
    } else {
      hide Tells;
      hide TwoReads;
      hide CallsOf;
      hide ConfigurationReads;
      var n := |descriptions| - 1;
      ConfigurationCalls(descriptions);
      assert forall i | 0 <= i < n :: descriptions[..n][i] == descriptions[i];
      ConfigurationReadsAre(descriptions[..n], Min(k, n), d, value);
      TellsMore(CallsOf(ConfigurationReads(descriptions[..n])), descriptions, k, d, value);
    }
  }

  lemma NothingPlain(d: D.Descriptor)
    ensures Plain([], d) && NoSelection([]) && NothingRead([])
  {
  }

  // ---- The rest of an enumeration ----

  function StringReads(strings: seq<Bytes>): seq<TL.Transfer>
    decreases |strings|
  {
    if strings == [] then []
    else
      var n := |strings| - 1;
      StringReads(strings[..n]) + [GetDescriptor(D.USB_DT_STRING, n % 0x100, strings[n], 255)]
  }

  lemma StringReadIs(index: byte, data: Bytes, d: D.Descriptor)
    ensures var calls := [Reading(D.USB_DT_STRING, index, data, 255)];
            Plain(calls, d) && NoSelection(calls) && NothingRead(calls)
  {
    ReadingIsPlain(D.USB_DT_STRING, index, data, 255);
    hide Reading;
    hide Reads;
    hide ReadsSet;
    hide TL.Directed;
    hide Selects;
    hide Requests;
    hide Bulk;
  }

  lemma {:induction false} StringReadsAre(strings: seq<Bytes>, d: D.Descriptor)
    ensures var calls := CallsOf(StringReads(strings));
            Plain(calls, d) && NoSelection(calls) && NothingRead(calls)
    ensures AllWritable(StringReads(strings))
    decreases |strings|
  {
    hide Plain;
    hide NoSelection;
    hide NothingRead;
    hide Writable;
    hide GetDescriptor;
    hide Reading;
    hide TL.Transfer.Expected;
    if strings == [] {
      NothingPlain(d);
    } else {
      hide CallsOf;
      var n := |strings| - 1;
      StringReadsAre(strings[..n], d);
      ReadingIs(D.USB_DT_STRING, n % 0x100, strings[n], 255);
      StringReadIs(n % 0x100, strings[n], d);
      CallsMore(StringReads(strings[..n]), GetDescriptor(D.USB_DT_STRING, n % 0x100, strings[n], 255));
      PlainConcat(CallsOf(StringReads(strings[..n])), [Reading(D.USB_DT_STRING, n % 0x100, strings[n], 255)], d);
    }
  }

  /** The configuration is selected, or none is. */
  function Selections(selection: Option<byte>): seq<TL.Transfer> {
    match selection
    case None => []
    case Some(value) => [Selecting(value)]
  }

  lemma SelectionCalls(selection: Option<byte>)
    ensures CallsOf(Selections(selection)) == match selection case None => [] case Some(v) => [SelectCall(v)]
  {
    if selection.Some? {
      SelectingIs(selection.value);
      hide Selecting;
      hide SelectCall;
      hide TL.Transfer.Expected;
      CallsMore([], Selecting(selection.value));
      assert [] + [Selecting(selection.value)] == [Selecting(selection.value)];
    }
  }

  lemma SelectionsAre(selection: Option<byte>, d: D.Descriptor)
    ensures var calls := CallsOf(Selections(selection)); Plain(calls, d) && NothingRead(calls)
    ensures AllWritable(Selections(selection))
  {
    SelectionCalls(selection);
    if selection.Some? {
      SelectingIs(selection.value);
      hide Selecting;
      hide SelectCall;
      hide TL.Directed;
      hide Reads;
      hide ReadsSet;
      hide Bulk;
      hide Requests;
    }
    hide CallsOf;
  }

  /** A host reads the device descriptor, the configurations and the strings. */
  function AllReads(fields: DeviceFields, descriptions: seq<Description>, strings: seq<Bytes>): seq<TL.Transfer>
    requires AllPrintable(descriptions)
  {
    DeviceReads(fields) + ConfigurationReads(descriptions) + StringReads(strings)
  }

  /** Then it selects a configuration or leaves it. */
  function Enumerate(
    fields: DeviceFields, descriptions: seq<Description>, strings: seq<Bytes>, selection: Option<byte>)
    : seq<TL.Transfer>
    requires AllPrintable(descriptions)
  {
    AllReads(fields, descriptions, strings) + Selections(selection)
  }

  /** The value selected; zero is none. */
  function ValueOf(selection: Option<byte>): byte {
    match selection case None => 0 case Some(v) => v
  }

  predicate Described(descriptions: seq<Description>, value: byte) {
    exists i :: 0 <= i < |descriptions| && descriptions[i].value == value
  }

  predicate IsFirstOf(descriptions: seq<Description>, k: nat) {
    && AllPrintable(descriptions) && k < |descriptions|
    && forall i | 0 <= i < k :: descriptions[i].value != descriptions[k].value
  }

  /** The k-th configuration is the first of its value, and the one selected, or the lowest when none that is described
      is selected. */
  predicate Chooses(descriptions: seq<Description>, k: nat, selection: Option<byte>) {
    && IsFirstOf(descriptions, k)
    && var value, chosen := descriptions[k].value, ValueOf(selection);
       chosen == value
       || (!Described(descriptions, chosen) && forall v: byte | Described(descriptions, v) :: value <= v)
  }

  /** The k-th configuration is the first of its value, and the one selected, or the only one when none is. */
  predicate Settles(descriptions: seq<Description>, k: nat, selection: Option<byte>) {
    && IsFirstOf(descriptions, k)
    && var value, chosen := descriptions[k].value, ValueOf(selection);
       chosen == value || (chosen == 0 && forall v: byte | Described(descriptions, v) :: v == value)
  }

  lemma ThreeParts(a: seq<TL.Transfer>, b: seq<TL.Transfer>, c: seq<TL.Transfer>)
    ensures CallsOf(a + b + c) == CallsOf(a) + CallsOf(b) + CallsOf(c)
    ensures AllWritable(a) && AllWritable(b) && AllWritable(c) ==> AllWritable(a + b + c)
  {
    CallsConcat(a + b, c);
    CallsConcat(a, b);
    hide CallsOf;
    hide Writable;
  }

  lemma DescribedMore(descriptions: seq<Description>, value: byte)
    requires descriptions != []
    ensures var n := |descriptions| - 1;
            Described(descriptions, value) <==> Described(descriptions[..n], value) || descriptions[n].value == value
  {
    var n := |descriptions| - 1;
    assert forall i | 0 <= i < n :: descriptions[..n][i] == descriptions[i];
    assert descriptions[n] in descriptions;
  }

  /** Exactly the configurations described are read. */
  lemma {:induction false} ReadIsDescribed(descriptions: seq<Description>, value: byte)
    requires AllPrintable(descriptions)
    ensures IsRead(CallsOf(ConfigurationReads(descriptions)), value) <==> Described(descriptions, value)
    decreases |descriptions|
  {
    hide Description.CanPrint;
    if descriptions == [] {
    } else {
      hide TwoReads;
      hide CallsOf;
      hide ConfigurationReads;
      var n := |descriptions| - 1;
      DescribedMore(descriptions, value);
      ConfigurationCalls(descriptions);
      ReadIsDescribed(descriptions[..n], value);
      TwoReadsFind(descriptions[n], n % 0x100, value);
      FirstReadConcat(CallsOf(ConfigurationReads(descriptions[..n])), TwoReads(descriptions[n], n % 0x100), value);
      hide Described;
      hide FirstRead;
    }
  }

  /** Reads of the device, of its configurations, and of strings. */
  lemma PartsDescribe(a: seq<D.Call>, b: seq<D.Call>, c: seq<D.Call>, d: D.Descriptor, descriptions: seq<Description>,
                      k: nat, value: byte)
    requires AllPrintable(descriptions) && k < |descriptions| && descriptions[k].value == value
    requires Plain(a, d) && NoSelection(a) && NothingRead(a) && FirstTaken(a).Some?
    requires Tells(b, descriptions, k, d, value) && Plain(c, d) && NoSelection(c)
    ensures var calls := a + b + c; Describes(calls, d, descriptions[k]) && Plain(calls, d) && NoSelection(calls)
  {
    hide Plain;
    hide NoSelection;
    hide NothingRead;
    hide FirstRead;
    hide FirstTaken;
    hide Takes;
    hide Description.CanPrint;
    hide Description.Encoded;
    PlainConcat(a, b, d);
    PlainConcat(a + b, c, d);
    NothingIsFirst(a, value);
    FirstReadConcat(a, b, value);
    FirstReadConcat(a + b, c, value);
    var calls, y := a + b + c, FirstRead(b, value).value;
    assert FirstRead(calls, value) == Some(|a| + y);
    assert calls[|a| + y] == b[y] && calls[..|a| + y] == a + b[..y];
    FirstTakenConcat(a, b[..y]);
    PlainIsOfDevice(calls, d);
    hide OfDevice;
  }

  lemma ReadInParts(a: seq<D.Call>, b: seq<D.Call>, c: seq<D.Call>, value: byte)
    requires NothingRead(a) && NothingRead(c)
    ensures IsRead(a + b + c, value) <==> IsRead(b, value)
  {
    hide NothingRead;
    hide FirstRead;
    NothingIsFirst(a, value);
    NothingIsFirst(c, value);
    FirstReadConcat(a, b, value);
    FirstReadConcat(a + b, c, value);
  }

  lemma PlainIsOfDevice(calls: seq<D.Call>, d: D.Descriptor)
    requires Plain(calls, d)
    ensures OfDevice(calls, d)
  {
  }

  /** The reads describe the device, and exactly the configurations there are. */
  lemma AllReadsAre(fields: DeviceFields, descriptions: seq<Description>, strings: seq<Bytes>, k: nat)
    requires IsFirstOf(descriptions, k)
    ensures var calls, d := CallsOf(AllReads(fields, descriptions, strings)), fields.Encoded();
            && Describes(calls, d, descriptions[k]) && Plain(calls, d) && NoSelection(calls)
            && forall v: byte :: IsRead(calls, v) <==> Described(descriptions, v)
    ensures AllWritable(AllReads(fields, descriptions, strings))
  {
    hide CallsOf;
    hide DeviceReads;
    hide ConfigurationReads;
    hide StringReads;
    hide Describes;
    hide Described;
    hide Plain;
    hide NoSelection;
    hide NothingRead;
    hide AllWritable;
    hide FirstTaken;
    hide Tells;
    hide IsRead;
    hide DeviceFields.Encoded;
    hide Description.CanPrint;
    var d, value := fields.Encoded(), descriptions[k].value;
    DeviceReadsAre(fields);
    ConfigurationReadsAre(descriptions, k, d, value);
    ConfigurationReadsAreWritable(descriptions);
    StringReadsAre(strings, d);
    var a, b := CallsOf(DeviceReads(fields)), CallsOf(ConfigurationReads(descriptions));
    var c := CallsOf(StringReads(strings));
    ThreeParts(DeviceReads(fields), ConfigurationReads(descriptions), StringReads(strings));
    PartsDescribe(a, b, c, d, descriptions, k, value);
    forall v: byte
      ensures IsRead(a + b + c, v) <==> Described(descriptions, v)
    {
      ReadInParts(a, b, c, v);
      ReadIsDescribed(descriptions, v);
    }
  }

  /** The device is described, exactly its configurations have been read, and the selection is the last made. */
  predicate Stands(calls: seq<D.Call>, fields: DeviceFields, descriptions: seq<Description>, k: nat,
                   selection: Option<byte>) {
    && IsFirstOf(descriptions, k) && Describes(calls, fields.Encoded(), descriptions[k])
    && (forall v: byte :: IsRead(calls, v) <==> Described(descriptions, v))
    && LastSelection(calls) == ValueOf(selection)
  }

  /** Then the configuration is in use as the host has chosen. */
  lemma StandsAsChosen(calls: seq<D.Call>, fields: DeviceFields, descriptions: seq<Description>, k: nat,
                       selection: Option<byte>)
    requires Stands(calls, fields, descriptions, k, selection)
    ensures Prevails(calls, descriptions[k].value) <==> Settles(descriptions, k, selection)
    ensures Answers(calls, descriptions[k].value) <==> Chooses(descriptions, k, selection)
  {
    hide IsRead;
    hide LastSelection;
    hide Describes;
    hide AllPrintable;
    hide DeviceFields.Encoded;
    assert Described(descriptions, descriptions[k].value);
    hide Described;
  }

  /** Nothing has been read but what the device has, and nothing selected where the host will not either. */
  predicate Precedes(calls: seq<D.Call>, fields: DeviceFields, descriptions: seq<Description>, k: nat,
                     selection: Option<byte>) {
    && IsFirstOf(descriptions, k) && Describes(calls, fields.Encoded(), descriptions[k])
    && (forall v: byte | IsRead(calls, v) :: Described(descriptions, v))
    && (selection == None ==> LastSelection(calls) == 0)
  }

  lemma SelectionFollows(earlier: seq<D.Call>, selection: Option<byte>)
    requires selection == None ==> LastSelection(earlier) == 0
    ensures LastSelection(earlier + CallsOf(Selections(selection))) == ValueOf(selection)
  {
    var e := CallsOf(Selections(selection));
    match selection
    case None => assert earlier + e == earlier;
    case Some(v) =>
      SelectionCalls(selection);
      SelectingIs(v);
      assert (earlier + e)[..|earlier|] == earlier;
      hide SelectCall;
      hide Selects;
      hide Selection;
      hide CallsOf;
  }

  /** An enumeration, the first or another of the device, leaves it described, with the configurations known and the
      selection made; and it holds nothing for a decoder. */
  lemma EnumerationStands(
    earlier: seq<D.Call>, fields: DeviceFields, descriptions: seq<Description>, strings: seq<Bytes>,
    selection: Option<byte>, k: nat)
    requires Precedes(earlier, fields, descriptions, k, selection)
    ensures var calls := CallsOf(Enumerate(fields, descriptions, strings, selection));
            Stands(earlier + calls, fields, descriptions, k, selection) && Plain(calls, fields.Encoded())
    ensures AllWritable(Enumerate(fields, descriptions, strings, selection))
  {
    hide CallsOf;
    hide AllReads;
    hide Selections;
    hide Describes;
    hide Described;
    hide Plain;
    hide NoSelection;
    hide NothingRead;
    hide IsRead;
    hide LastSelection;
    hide Writable;
    hide DeviceFields.Encoded;
    hide Description.CanPrint;
    var d, description := fields.Encoded(), descriptions[k];
    var front, e := CallsOf(AllReads(fields, descriptions, strings)), CallsOf(Selections(selection));
    AllReadsAre(fields, descriptions, strings, k);
    SelectionsAre(selection, d);
    CallsConcat(AllReads(fields, descriptions, strings), Selections(selection));
    PlainConcat(front, e, d);
    DescribesConcat(earlier, front, d, description);
    NothingDescribes(e, d, description);
    DescribesConcat(earlier + front, e, d, description);
    SelectionStays(earlier, front);
    SelectionFollows(earlier + front, selection);
    assert earlier + (front + e) == (earlier + front) + e;
    forall v: byte
      ensures IsRead((earlier + front) + e, v) <==> Described(descriptions, v)
    {
      ReadMore(earlier, front, v);
      ReadMore(earlier + front, e, v);
      NothingIsRead(e, v);
    }
    hide AllPrintable;
  }

  lemma ReadMore(a: seq<D.Call>, b: seq<D.Call>, value: byte)
    ensures IsRead(a + b, value) <==> IsRead(a, value) || IsRead(b, value)
  {
    hide FirstRead;
    FirstReadConcat(a, b, value);
  }

  lemma NothingIsRead(calls: seq<D.Call>, value: byte)
    requires NothingRead(calls)
    ensures !IsRead(calls, value)
  {
    NothingIsFirst(calls, value);
  }

  lemma NothingDescribes(calls: seq<D.Call>, d: D.Descriptor, description: Description)
    requires Plain(calls, d) && NothingRead(calls) && description.CanPrint()
    ensures Describes(calls, d, description)
  {
    hide NothingRead;
    hide Description.CanPrint;
    NothingIsFirst(calls, description.value);
    PlainIsOfDevice(calls, d);
    hide Plain;
    hide OfDevice;
  }

  /** At first there is nothing. */
  lemma NothingPrecedes(fields: DeviceFields, descriptions: seq<Description>, k: nat, selection: Option<byte>)
    requires IsFirstOf(descriptions, k)
    ensures Precedes([], fields, descriptions, k, selection)
  {
    hide Description.CanPrint;
  }

  // ---- A configuration read too early ----

  /** The configuration is read before the device descriptor. */
  function TooEarly(fields: DeviceFields, description: Description): seq<D.Call>
    requires description.CanPrint()
  {
    [Reading(USB_DT_CONFIG, 0, description.Encoded(), 0xFFFF),
     Reading(D.USB_DT_DEVICE, 0, fields.Encoded(), D.USB_DT_DEVICE_SIZE)]
  }

  /** A phone whose configuration is read before its device descriptor is left without its usbmux decoder. */
  lemma EarlyReadLosesDecoder(fields: DeviceFields, description: Description, number: byte)
    requires SpeaksUsbMux(fields, description, number)
    ensures description.CanPrint() && !Due(ApplyAll(D.NEW, TooEarly(fields, description)))
  {
    hide ApplyAll;
    hide Stays;
    hide Takes;
    hide Reads;
    hide Identified;
    hide ReadsSet;
    hide SetOf;
    hide D.IdentityOf;
    hide Indifferent;
    hide TL.Directed;
    hide Due;
    hide Description.CanPrint;
    hide Description.Encoded;
    hide DeviceFields.Encoded;
    hide Exclusive;
    SpeaksPrintable(fields, description, number);
    var data, d := description.Encoded(), fields.Encoded();
    ReadDeviceIs(fields);
    ConfigurationReadingIs(description, 0);
    ReadingIsPlain(USB_DT_CONFIG, 0, data, 0xFFFF);
    ReadingIsPlain(D.USB_DT_DEVICE, 0, d, D.USB_DT_DEVICE_SIZE);
    DeviceIsIdentified(fields);
    var a, b := Reading(USB_DT_CONFIG, 0, data, 0xFFFF), Reading(D.USB_DT_DEVICE, 0, d, D.USB_DT_DEVICE_SIZE);
    EarlyReadIsLost(fields, description, number);
    TakesReads(a);
    TwoCallsStay(a, b);
    hide Reading;
    assert [a][..0] == [] && [a, b][..1] == [a] && [a, b][..0] == [];
    assert FirstRead([a], description.value) == Some(0);
    assert FirstRead([a, b], description.value) == Some(0);
    assert FirstTaken([a]) == None;
    assert FirstTaken([a, b]) == Some(1);
    assert !ReadInTime([a, b], description.value);
    DecodersAreDue([a, b]);
  }

  /** A phone with one interface, which speaks usbmux on an endpoint in each direction. */
  const PHONE: DeviceFields := DeviceFields(0x0200, 0, 0, 0, 64, 0x05AC, 0x12A8, 0x0100, 1, 2, 3, 1)

  const USBMUX_SETTING: Setting :=
    Setting(1, 0, 0xFF, 0xFE, 2, [], [Endpoint(0x85, 2, 512, 0), Endpoint(0x04, 2, 512, 0)])

  const PHONE_CONFIGURATION: Description := Description(1, 1, 0, 0xC0, 250, [USBMUX_SETTING])

  /** There are such phones. */
  lemma SomePhoneLosesDecoder()
    ensures SpeaksUsbMux(PHONE, PHONE_CONFIGURATION, 1)
    ensures PHONE_CONFIGURATION.CanPrint() && !Due(ApplyAll(D.NEW, TooEarly(PHONE, PHONE_CONFIGURATION)))
  {
    PhoneCanPrint();
    PhoneSpeaks();
    hide SpeaksUsbMux;
    hide Due;
    hide ApplyAll;
    EarlyReadLosesDecoder(PHONE, PHONE_CONFIGURATION, 1);
  }

  lemma PhoneSpeaks()
    requires PHONE_CONFIGURATION.CanPrint()
    ensures SpeaksUsbMux(PHONE, PHONE_CONFIGURATION, 1)
  {
    hide Description.CanPrint;
    hide D.Declares;
    var settings := PHONE_CONFIGURATION.settings;
    SettingHolds(settings, 0, 0);
    hide WholeInterfaces;
    assert StartsUsbMux(WholeInterfaces(settings), 1, 0);
  }

  lemma PhoneCanPrint()
    ensures PHONE_CONFIGURATION.CanPrint()
  {
    var setting, e, f := USBMUX_SETTING, Endpoint(0x85, 2, 512, 0), Endpoint(0x04, 2, 512, 0);
    assert [e, f][1..] == [f];
    var i, a, b := InterfaceBytes(setting), EndpointBytes(e), EndpointBytes(f);
    assert |i| == 9 && |a| == |b| == 7;
    hide EndpointBytes;
    hide InterfaceBytes;
    assert SettingList([setting]) == [i, a, b];
    assert [i, a, b][1..] == [a, b] && [a, b][1..] == [b];
    assert |Flat([b])| == 7;
    assert |Flat([a, b])| == 14;
    assert PHONE_CONFIGURATION.settings == [setting];
  }

  lemma ReadDeviceIs(fields: DeviceFields)
    ensures var call := Reading(D.USB_DT_DEVICE, 0, fields.Encoded(), D.USB_DT_DEVICE_SIZE);
            Takes(call) && Identified(call) == fields.Encoded()
  {
    DeviceIsIdentified(fields);
    hide DeviceFields.Encoded;
    ReadingIsPlain(D.USB_DT_DEVICE, 0, fields.Encoded(), D.USB_DT_DEVICE_SIZE);
    assert fields.Encoded()[..18] == fields.Encoded();
  }

  lemma EarlyReadIsLost(fields: DeviceFields, description: Description, number: byte)
    requires SpeaksUsbMux(fields, description, number)
    ensures description.CanPrint()
    ensures var call := Reading(USB_DT_CONFIG, 0, description.Encoded(), 0xFFFF);
            ReadsSet(call) && !Indifferent(fields.Identity(), SetOf(call))
  {
    hide Indifferent;
    hide StartsUsbMux;
    hide Description.Encoded;
    hide Description.Parsed;
    hide Description.CanPrint;
    hide SetOf;
    hide Exclusive;
    ConfigurationReadingIs(description, 0);
    SetIsDescription(Reading(USB_DT_CONFIG, 0, description.Encoded(), 0xFFFF), description);
    DescriptionIsRead(description);
    UsbMuxMakesTheDifference(fields.Identity(), description.Parsed());
  }

  lemma TwoCallsStay(a: D.Call, b: D.Call)
    requires TL.Directed(a) && !Reads(a)
    ensures Stays(D.NEW, [a, b])
  {
    hide D.Apply;
    hide TL.Directed;
    hide Reads;
    hide Identified;
    hide Stays;
    StaysWithout(D.NEW);
    StaysMore(D.NEW, [], a);
    StaysMore(D.NEW, [a], b);
    assert [] + [a] == [a] && [a] + [b] == [a, b];
    assert [a][..0] == [];
    DescriptorAfter(D.NEW, a);
  }
}

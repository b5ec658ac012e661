/** From the bytes of a capture file to the calls its devices see, through either container and any packet layout. */
module CaptureFiles {
  import opened Wire
  import opened Transfers
  import opened LinkTypes
  import opened Records
  import opened CaptureLaws
  import D = Device
  import F = FormatLaws
  import TL = TransferLaws
  import PcapNG
  import NG = PcapNGLaws
  import Pcap
  import PL = PcapLaws

  /** The largest packet header. */
  const HEADER_ROOM: nat := 0x100

  /** The layout can tell the event, and there is room for its data. */
  predicate Fitting(format: F.Format, e: TL.Event) {
    F.Fits(format, e) && |e.Data()| < 0x1_0000_0000 - HEADER_ROOM
  }

  predicate Storable(format: F.Format, script: seq<Happening>) {
    forall i | 0 <= i < |script| :: Fitting(format, script[i].event)
  }

  lemma StorableIsPrintable(format: F.Format, script: seq<Happening>)
    requires Storable(format, script)
    ensures Printable(format, script)
  {
  }

  lemma EncodedLength(format: F.Format, place: F.Place, e: TL.Event)
    requires F.Fits(format, e)
    ensures |F.Encode(format, place, e)| <= |e.Data()| + 72
  {
    F.WithSetupLength(e);
    hide F.WithSetup;
    hide F.DarwinPacket;
    hide F.UsbPcapPacket;
    hide F.UsbmonPacket;
    hide TL.Event.Data;
  }

  // ---- Files ----

  function Packets(format: F.Format, script: seq<Happening>): (packets: seq<Bytes>)
    requires Printable(format, script)
    ensures |packets| == |script|
    decreases |script|
  {
    if script == [] then []
    else
      var last := script[|script| - 1];
      Packets(format, script[..|script| - 1]) + [F.Encode(format, last.place, last.event)]
  }

  lemma {:induction false} PacketsFit(format: F.Format, script: seq<Happening>)
    requires Storable(format, script) && Printable(format, script)
    ensures forall i | 0 <= i < |script| :: |Packets(format, script)[i]| < 0x1_0000_0000 - 0x80
    decreases |script|
  {
    hide F.Encode;
    if script == [] {
    } else {
      var init, last := script[..|script| - 1], script[|script| - 1];
      PacketsFit(format, init);
      EncodedLength(format, last.place, last.event);
      var packets := Packets(format, init);
      assert forall i | 0 <= i < |init| :: Packets(format, script)[i] == packets[i];
    }
  }

  /** Every packet on the one interface there is. */
  function OnFirst(packets: seq<Bytes>): (r: seq<NG.Record>)
    requires forall k | 0 <= k < |packets| :: |packets[k]| < 0x1_0000_0000
    ensures |r| == |packets|
  {
    if packets == [] then []
    else [NG.Enhanced(0, Zeros(8), packets[0], |packets[0]|, [])] + OnFirst(packets[1..])
  }

  /** The packets as one section on one interface. */
  function OneSection(linktype: uint16, packets: seq<Bytes>): NG.Section
    requires forall k | 0 <= k < |packets| :: |packets[k]| < 0x1_0000_0000
  {
    NG.Section([], [NG.Declare(PcapNG.Interface(linktype, 0x40000), [])] + OnFirst(packets))
  }

  function CaptureFile(format: F.Format, script: seq<Happening>): Bytes
    requires Storable(format, script)
  {
    StorableIsPrintable(format, script);
    PacketsFit(format, script);
    SectionHoldsItems(format.LinkType(), Packets(format, script));
    NG.PrintFile([OneSection(format.LinkType(), Packets(format, script))])
  }

  /** Every packet as a record, captured as long as it was. */
  function OnDisk(packets: seq<Bytes>): (r: seq<PL.Record>)
    requires forall k | 0 <= k < |packets| :: |packets[k]| < 0x1_0000_0000
    ensures PL.AllFit(r) && PL.Contents(r) == packets
  {
    if packets == [] then []
    else [PL.Record(0, 0, |packets[0]|, packets[0])] + OnDisk(packets[1..])
  }

  function ClassicFile(format: F.Format, script: seq<Happening>, swapped: bool, nanoseconds: bool): Bytes
    requires Storable(format, script)
  {
    StorableIsPrintable(format, script);
    PacketsFit(format, script);
    PL.PrintFile(format.LinkType(), OnDisk(Packets(format, script)), [], swapped, nanoseconds)
  }

  lemma {:induction false} OnFirstIsItems(i: PcapNG.Interface, packets: seq<Bytes>)
    requires forall k | 0 <= k < |packets| :: |packets[k]| < 0x1_0000_0000 - 0x80
    ensures NG.AllFit([i], OnFirst(packets))
    ensures NG.RecordItems([i], OnFirst(packets)) == PL.Items(i.linktype, packets)
  {
    if packets == [] {
    } else {
      OnFirstIsItems(i, packets[1..]);
      assert OnFirst(packets)[1..] == OnFirst(packets[1..]);
    }
  }

  lemma SectionHoldsItems(linktype: uint16, packets: seq<Bytes>)
    requires forall i | 0 <= i < |packets| :: |packets[i]| < 0x1_0000_0000 - 0x80
    ensures OneSection(linktype, packets).Valid()
    ensures NG.AllItems([OneSection(linktype, packets)]) == PL.Items(linktype, packets)
  {
    var i, s := PcapNG.Interface(linktype, 0x40000), OneSection(linktype, packets);
    OnFirstIsItems(i, packets);
    assert s.records[1..] == OnFirst(packets) && [] + [i] == [i];
    hide OnFirst;
    hide PL.Items;
    var items := NG.RecordItems([i], s.records[1..]);
    assert [] + items == items;
    assert [s][1..] == [];
    assert NG.AllItems([s][1..]) == [];
    assert s.Items() + [] == s.Items();
  }

  lemma {:induction false} ItemsAppend(linktype: uint32, packets: seq<Bytes>, last: Bytes)
    ensures PL.Items(linktype, packets + [last]) == PL.Items(linktype, packets) + [Deliver(linktype, last)]
  {
    if packets == [] {
      assert ([] + [last])[1..] == [];
    } else {
      assert (packets + [last])[1..] == packets[1..] + [last];
      ItemsAppend(linktype, packets[1..], last);
    }
  }

  lemma {:induction false} PrintedItems(format: F.Format, script: seq<Happening>)
    requires Printable(format, script)
    ensures PL.Items(format.LinkType(), Packets(format, script)) == Printed(format, script)
    decreases |script|
  {
    hide F.Encode;
    if script == [] {
    } else {
      var init, last := script[..|script| - 1], script[|script| - 1];
      PrintedItems(format, init);
      ItemsAppend(format.LinkType(), Packets(format, init), F.Encode(format, last.place, last.event));
    }
  }

  /** Either container, in either byte order, delivers the packets written to it. */
  lemma ContainersAgree(format: F.Format, script: seq<Happening>, swapped: bool, nanoseconds: bool)
    requires Storable(format, script) && Printable(format, script)
    ensures PcapNG.File(CaptureFile(format, script)) == Walked(Printed(format, script), false)
    ensures Pcap.File(ClassicFile(format, script, swapped, nanoseconds)) == Walked(Printed(format, script), false)
  {
    hide PcapNG.File;
    hide Pcap.File;
    hide NG.PrintFile;
    hide PL.PrintFile;
    hide PL.Items;
    hide NG.AllItems;
    hide Packets;
    hide Printed;
    var packets := Packets(format, script);
    PacketsFit(format, script);
    PrintedItems(format, script);
    SectionHoldsItems(format.LinkType(), packets);
    NG.RoundTrip([OneSection(format.LinkType(), packets)]);
    PL.RoundTrip(format.LinkType(), OnDisk(packets), [], swapped, nanoseconds);
    var items := PL.Items(format.LinkType(), packets);
    assert items + [] == items;
    hide OneSection;
  }

  // ---- From bytes to calls ----

  /** The data staged under an identifier. */
  function Parts(events: seq<TL.Event>, id: uint64): Bytes
    decreases |events|
  {
    if events == [] then []
    else
      var before, last := Parts(events[..|events| - 1], id), events[|events| - 1];
      if last.Stage? && last.id == id then before + last.part else before
  }

  /** Events of one identifier are of one transfer: it is submitted at most once, then perhaps staged, and then
      completed or aborted at most once, with all its stages when it is. The submission may be missing, and so may the
      end. */
  predicate DistinctIds(events: seq<TL.Event>) {
    && (forall i, k | 0 <= i < k < |events| && events[i].id == events[k].id ::
          events[k].transfer == events[i].transfer && !events[k].Submit? && !events[i].Complete? && !events[i].Abort?)
    && (forall k | 0 <= k < |events| && events[k].Stage? :: events[k].transfer.kind.ControlType?)
    && (forall k | 0 <= k < |events| && events[k].Complete? ::
          Parts(events[..k], events[k].id) == if events[k].transfer.staged then events[k].transfer.data else [])
  }

  lemma AboutTellsId(e: TL.Event, key: Key)
    requires TL.Involves(e.Op(), key)
    ensures e.id == key.1
  {
  }

  /** All events of an identifier are about the one key. */
  predicate OneTransfer(events: seq<TL.Event>, e: TL.Event) {
    forall i | 0 <= i < |events| && events[i].id == e.id ::
      && events[i].transfer == e.transfer && !events[i].Complete? && !events[i].Abort?
      && (events[i].Stage? ==> e.transfer.kind.ControlType?)
      && (events[i].Submit? ==> forall j | 0 <= j < i :: events[j].id != e.id)
  }

  lemma {:induction false} NoParts(events: seq<TL.Event>, id: uint64)
    requires forall i | 0 <= i < |events| :: events[i].id != id
    ensures Parts(events, id) == []
    decreases |events|
  {
    if events == [] {
    } else {
      NoParts(events[..|events| - 1], id);
    }
  }

  /** Then what pends is its submission, with what was staged. */
  lemma {:induction false} LatestIsOwn(events: seq<TL.Event>, e: TL.Event)
    requires e.Complete? && OneTransfer(events, e)
    ensures var latest := TL.Latest(events, e.Key());
            latest.Some? ==> latest.value == TL.Submit(e.id, e.transfer)
                             && TL.Staged(events, e.Key()) == Parts(events, e.id)
    decreases |events|
  {
    if events == [] {
    } else {
      var init, last := events[..|events| - 1], events[|events| - 1];
      assert OneTransfer(init, e);
      if TL.Involves(last.Op(), e.Key()) {
        AboutTellsId(last, e.Key());
        assert e.Key().1 == e.id;
        if last.Submit? {
          NoParts(init, e.id);
        } else {
          LatestIsOwn(init, e);
        }
      } else {
        assert last.id == e.id ==> !last.Stage?;
        LatestIsOwn(init, e);
      }
    }
  }

  lemma DistinctIdsMatch(events: seq<TL.Event>)
    requires DistinctIds(events)
    ensures TL.Matched(events)
  {
    hide TL.Latest;
    hide TL.Staged;
    hide TL.Event.Key;
    hide Parts;
    forall k | 0 <= k < |events|
      ensures TL.Fitting(events[..k], events[k])
    {
      if events[k].Complete? { LatestIsOwn(events[..k], events[k]); }
    }
  }

  /** The sessions of a device once a file has been read. */
  function Sessions(file: Walked, device: uint64): seq<D.State> {
    HandleOf(TakeAll(BLANK, file.items), device).sessions
  }

  /** However a script is written to a file, each device in it sees exactly the transfers completed at its place, in
      order, with their own setup and payload. */
  lemma FileDrivesDevices(format: F.Format, script: seq<Happening>, swapped: bool, nanoseconds: bool, place: F.Place)
    requires Storable(format, script) && Apart(format, script, place) && TL.Matched(EventsAt(script, place))
    requires forall k | 0 <= k < |EventsAt(script, place)| :: EventsAt(script, place)[k].transfer.Proper()
    ensures Sessions(PcapNG.File(CaptureFile(format, script)), F.DeviceId(format, place))
         == TL.DispatchAll(TL.Completions(EventsAt(script, place)))
    ensures Sessions(Pcap.File(ClassicFile(format, script, swapped, nanoseconds)), F.DeviceId(format, place))
         == TL.DispatchAll(TL.Completions(EventsAt(script, place)))
  {
    hide PcapNG.File;
    hide Pcap.File;
    hide CaptureFile;
    hide ClassicFile;
    hide TL.DispatchAll;
    hide TL.Matched;
    hide Storable;
    hide Printable;
    hide Apart;
    hide Printed;
    StorableIsPrintable(format, script);
    ContainersAgree(format, script, swapped, nanoseconds);
    DeviceSeesCompletions(format, script, place);
    hide EventsAt;
    hide TakeAll;
  }
}

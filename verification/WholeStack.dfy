/** All layers at once: from the bytes of a capture file to what the protocol decoders of a device are handed, and to
    the messages on a usbmux connection. */
module WholeStack {
  import opened Wire
  import D = Device
  import opened Configuration
  import T = Transfers
  import TL = TransferLaws
  import opened SessionRuns
  import opened Deliveries
  import F = FormatLaws
  import opened CaptureLaws
  import opened CaptureFiles
  import opened Records
  import PcapNG
  import Pcap
  import U = UsbMux
  import W = UsbMuxWire
  import E2E = UsbMuxEndToEnd

  // ---- From a file to a decoder ----

  /** The script makes the calls at the place, in order, and can be written to a file: no completion is taken for that
      of another transfer, and the place is told apart from the others. Transfers may be under way when the script
      starts or ends, and may be aborted where the layout tells it. */
  ghost predicate Performs(format: F.Format, script: seq<Happening>, place: F.Place, calls: seq<D.Call>) {
    var events := EventsAt(script, place);
    && Storable(format, script) && Apart(format, script, place) && TL.Matched(events)
    && (forall k | 0 <= k < |events| :: events[k].transfer.Proper())
    && TL.Completions(events) == calls
  }

  /** A capture is a pcapng file, or a pcap file of either byte order and precision. */
  datatype Container = Blocks | Classic(swapped: bool, nanoseconds: bool)

  /** What is walked of a script once written to a file. */
  function FileOf(format: F.Format, script: seq<Happening>, container: Container): Walked
    requires Storable(format, script)
  {
    match container
    case Blocks => PcapNG.File(CaptureFile(format, script))
    case Classic(swapped, nanoseconds) => Pcap.File(ClassicFile(format, script, swapped, nanoseconds))
  }

  /** The session that the device at a place is in once the file has been read. */
  function FinalSession(format: F.Format, script: seq<Happening>, container: Container, place: F.Place): D.State
    requires Storable(format, script)
  {
    var sessions := Sessions(FileOf(format, script, container), F.DeviceId(format, place));
    if sessions == [] then D.NEW else Current(sessions)
  }

  /** The file leaves the device at a place as its own calls do. */
  lemma FilesEndIn(format: F.Format, script: seq<Happening>, container: Container, place: F.Place, calls: seq<D.Call>)
    requires Performs(format, script, place, calls)
    ensures FinalSession(format, script, container, place) == Current(TL.DispatchAll(calls))
  {
    hide Storable;
    hide Apart;
    hide TL.Matched;
    hide EventsAt;
    hide TL.DispatchAll;
    hide Sessions;
    hide CaptureFile;
    hide ClassicFile;
    hide PcapNG.File;
    hide Pcap.File;
    match container
    case Blocks => FileDrivesDevices(format, script, false, false, place);
    case Classic(swapped, nanoseconds) => FileDrivesDevices(format, script, swapped, nanoseconds, place);
  }

  /** From some point on the device does not re-enumerate: then each decoder has been handed what it was handed by then,
      and exactly the transfers routed to it from there on, in order. */
  lemma FileReachesDecoder(
    format: F.Format, script: seq<Happening>, container: Container, place: F.Place,
    before: seq<D.Call>, calls: seq<D.Call>, expert: Expert)
    requires Performs(format, script, place, before + calls) && Stays(Current(TL.DispatchAll(before)), calls)
    ensures var s := Current(TL.DispatchAll(before));
            Handed(FinalSession(format, script, container, place).deliveries, expert)
            == Handed(s.deliveries, expert) + Routed(s, calls, expert)
  {
    hide Performs;
    hide TL.DispatchAll;
    hide FinalSession;
    hide Stays;
    hide Handed;
    hide Routed;
    hide ApplyAll;
    FilesEndIn(format, script, container, place, before + calls);
    CallsStayInSession(before, calls);
    CallsReachDecoder(Current(TL.DispatchAll(before)), calls, expert);
  }

  // ---- To the messages of a usbmux connection ----

  /** The bulk transfers a decoder is handed. */
  function Bulks(deliveries: seq<D.Delivery>): seq<W.Transfer>
    decreases |deliveries|
  {
    if deliveries == [] then []
    else
      var before, last := Bulks(deliveries[..|deliveries| - 1]), deliveries[|deliveries| - 1];
      if last.DeliverBulkIn? || last.DeliverBulkOut? then before + [W.Transfer(last.DeliverBulkOut?, last.data)]
      else before
  }

  /** What the transfers hold: usbmux packets of either version, and among them a generation of a connection whose
      segments carry length prefixed messages. */
  ghost predicate Conveys(
    transfers: seq<W.Transfer>, wire: seq<W.Wired>,
    host: uint16, device: uint16, g: uint32, sentOut: seq<Bytes>, sentIn: seq<Bytes>)
  {
    && W.Carries(transfers, wire) && W.InOrder(transfers, wire) && |wire| < U.GENERATIONS
    && E2E.CarriesScripts(W.SegmentsOf(wire), host, device, g, sentOut, sentIn)
  }

  /** The generation's stream holds exactly the messages sent, and nothing is left over anywhere. */
  ghost predicate Received(s: U.Demux, host: uint16, device: uint16, g: uint32, sentOut: seq<Bytes>, sentIn: seq<Bytes>)
    requires E2E.Script(sentOut) && E2E.Script(sentIn)
  {
    s.inn == [] && s.out == [] && s.resyncs == 0 && E2E.Received(s, host, device, g, sentOut, sentIn)
  }

  lemma ConveyedIsReceived(
    decode: U.Decoder, transfers: seq<W.Transfer>, wire: seq<W.Wired>,
    host: uint16, device: uint16, g: uint32, sentOut: seq<Bytes>, sentIn: seq<Bytes>)
    requires Conveys(transfers, wire, host, device, g, sentOut, sentIn)
    ensures Received(W.FeedTransfers(decode, transfers), host, device, g, sentOut, sentIn)
  {
    hide W.Carries;
    hide W.InOrder;
    hide E2E.CarriesScripts;
    hide E2E.Received;
    E2E.ConnectionDelivered(decode, transfers, wire, host, device, g, sentOut, sentIn);
  }

  lemma ConveysScripts(
    transfers: seq<W.Transfer>, wire: seq<W.Wired>,
    host: uint16, device: uint16, g: uint32, sentOut: seq<Bytes>, sentIn: seq<Bytes>)
    requires Conveys(transfers, wire, host, device, g, sentOut, sentIn)
    ensures E2E.Script(sentOut) && E2E.Script(sentIn)
  {
    hide W.Carries;
    hide W.InOrder;
  }

  /** Take a script of USB traffic and write it to a file, in any packet layout and either container. From some point
      on the device does not re-enumerate, and what a decoder was handed by then and the transfers routed to it from
      there on carry usbmux traffic. From what it is handed, the decoder recovers every message of every generation of
      every connection, in both directions. */
  lemma FileToMessages(
    format: F.Format, script: seq<Happening>, container: Container, place: F.Place,
    before: seq<D.Call>, calls: seq<D.Call>, expert: Expert,
    decode: U.Decoder, wire: seq<W.Wired>,
    host: uint16, device: uint16, g: uint32, sentOut: seq<Bytes>, sentIn: seq<Bytes>)
    requires Performs(format, script, place, before + calls) && Stays(Current(TL.DispatchAll(before)), calls)
    requires var s := Current(TL.DispatchAll(before));
             Conveys(Bulks(Handed(s.deliveries, expert) + Routed(s, calls, expert)), wire,
                     host, device, g, sentOut, sentIn)
    ensures E2E.Script(sentOut) && E2E.Script(sentIn)
    ensures var handed := Handed(FinalSession(format, script, container, place).deliveries, expert);
            Received(W.FeedTransfers(decode, Bulks(handed)), host, device, g, sentOut, sentIn)
  {
    hide Performs;
    hide TL.DispatchAll;
    hide FinalSession;
    hide Stays;
    hide Handed;
    hide Routed;
    hide Bulks;
    hide Conveys;
    hide E2E.Script;
    hide Received;
    hide W.FeedTransfers;
    FileReachesDecoder(format, script, container, place, before, calls, expert);
    var s := Current(TL.DispatchAll(before));
    var transfers := Bulks(Handed(s.deliveries, expert) + Routed(s, calls, expert));
    ConveysScripts(transfers, wire, host, device, g, sentOut, sentIn);
    ConveyedIsReceived(decode, transfers, wire, host, device, g, sentOut, sentIn);
  }
}

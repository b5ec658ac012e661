/** The device firmware upgrade decoder: downloaded blocks reassembled into images, and the protocol's oddities. */
module Dfu {
  import opened Wire
  import opened Cutting
  import opened InterfaceExperts
  import D = Device

  const DETACH: byte := 0
  const DNLOAD: byte := 1
  const UPLOAD: byte := 2
  const GETSTATUS: byte := 3
  const CLRSTATUS: byte := 4
  const GETSTATE: byte := 5
  const ABORT: byte := 6

  /** What the decoder records as out of line with the protocol. */
  datatype Anomaly =
    | LengthMismatch(request: byte, carried: nat, length: uint16)
    | ExceedsTransferSize(length: uint16, limit: uint16)
    | AbortedDownload(size: nat)
    | UnexpectedOut(request: byte)
    | UnexpectedIn(request: byte)

  /** A control transfer handed to the decoder. */
  datatype Request = Out(setup: D.Setup, data: Bytes) | In(setup: D.Setup, data: Bytes) {
    predicate Class() { setup.requestType / 0x20 % 4 == 1 }
  }

  /** The value of a decoder. */
  datatype State = State(
    transferSize: uint16, images: seq<Bytes>, current: Bytes, uploadBytes: nat, counts: map<byte, nat>,
    anomalies: seq<Anomaly>, lastState: Option<byte>, lastStatus: Option<byte>, traffic: Traffic)
  {
    /** The finished images, and the one still in flight. */
    function Images(): seq<Bytes> {
      if current == [] then images else images + [current]
    }

    function Counted(request: byte): State {
      this.(counts := counts[request := (if request in counts then counts[request] else 0) + 1])
    }

    function Noted(a: seq<Anomaly>): State {
      this.(anomalies := anomalies + a)
    }

    /** The image in flight is finished, if there is one. */
    function Finished(): State {
      this.(images := Images(), current := [])
    }
  }

  function Fresh(transferSize: uint16): State {
    State(transferSize, [], [], 0, map[], [], None, None, QUIET)
  }

  function Mismatch(r: Request): seq<Anomaly> {
    if |r.data| != r.setup.length then [LengthMismatch(r.setup.request, |r.data|, r.setup.length)] else []
  }

  function StepOut(s: State, r: Request): State {
    var request, length := r.setup.request, r.setup.length;
    var noted := s.Counted(request).Noted(Mismatch(r));
    if request == DNLOAD then
      if length == 0 then noted.Finished()
      else
        var oversize := if s.transferSize != 0 && length > s.transferSize
            then [ExceedsTransferSize(length, s.transferSize)] else [];
        noted.Noted(oversize).(current := s.current + r.data)
    else if request == ABORT then
      if s.current == [] then noted else noted.Noted([AbortedDownload(|s.current|)]).Finished()
    else if request == DETACH || request == CLRSTATUS then noted
    else noted.Noted([UnexpectedOut(request)])
  }

  function StepIn(s: State, r: Request): State {
    var request, data := r.setup.request, r.data;
    var counted := s.Counted(request);
    if request == GETSTATUS then
      // Status, poll timeout, state, string index
      if |data| >= 5 then counted.(lastStatus := Some(data[0]), lastState := Some(data[4])) else counted
    else if request == GETSTATE then
      if |data| >= 1 then counted.(lastState := Some(data[0])) else counted
    else if request == UPLOAD then counted.(uploadBytes := s.uploadBytes + |data|)
    else counted.Noted([UnexpectedIn(request)])
  }

  function Step(s: State, r: Request): State {
    var counted := s.(traffic := s.traffic.Control(r.data));
    if !r.Class() then counted else if r.Out? then StepOut(counted, r) else StepIn(counted, r)
  }

  class DFUInterfaceExpert {
    var transferSize: uint16
    var images: seq<Bytes>
    var currentImage: Bytes
    var uploadBytes: nat
    var requestCounts: map<byte, nat>
    var anomalies: seq<Anomaly>
    var lastState: Option<byte>
    var lastStatus: Option<byte>
    var traffic: Traffic

    function Value(): State
      reads this
    {
      State(transferSize, images, currentImage, uploadBytes, requestCounts, anomalies, lastState, lastStatus, traffic)
    }

    constructor ()
      ensures Value() == Fresh(0)
    {
      transferSize, images, currentImage, uploadBytes := 0, [], [], 0;
      requestCounts, anomalies, lastState, lastStatus := map[], [], None, None;
      traffic := QUIET;
    }

    method SetTransferSize(size: uint16)
      modifies this`transferSize
      ensures Value() == old(Value()).(transferSize := size)
    {
      transferSize := size;
    }

    method Count(request: byte)
      modifies this`requestCounts
      ensures Value() == old(Value()).Counted(request)
    {
      requestCounts := requestCounts[request := (if request in requestCounts then requestCounts[request] else 0) + 1];
    }

    method Note(a: Anomaly)
      modifies this`anomalies
      ensures Value() == old(Value()).Noted([a])
    {
      anomalies := anomalies + [a];
    }

    method ProcessControlOut(setup: D.Setup, data: Bytes)
      modifies this
      ensures Value() == Step(old(Value()), Out(setup, data))
    {
      traffic := traffic.Control(data);
      if setup.requestType / 0x20 % 4 != 1 { return; }
      Count(setup.request);
      assert anomalies + [] == anomalies;
      if |data| != setup.length { Note(LengthMismatch(setup.request, |data|, setup.length)); }
      assert anomalies + [] == anomalies;

      if setup.request == DNLOAD {
        if setup.length == 0 {
          if |currentImage| > 0 {
            images := images + [currentImage];
            currentImage := [];
          }
          return;
        }
        if transferSize != 0 && setup.length > transferSize { Note(ExceedsTransferSize(setup.length, transferSize)); }
        currentImage := currentImage + data;
      } else if setup.request == ABORT {
        if |currentImage| > 0 {
          Note(AbortedDownload(|currentImage|));
          images := images + [currentImage];
          currentImage := [];
        }
      } else if setup.request != DETACH && setup.request != CLRSTATUS {
        Note(UnexpectedOut(setup.request));
      }
    }

    method ProcessControlIn(setup: D.Setup, data: Bytes)
      modifies this
      ensures Value() == Step(old(Value()), In(setup, data))
    {
      traffic := traffic.Control(data);
      if setup.requestType / 0x20 % 4 != 1 { return; }
      Count(setup.request);
      if setup.request == GETSTATUS {
        if |data| >= 5 { lastStatus, lastState := Some(data[0]), Some(data[4]); }
      } else if setup.request == GETSTATE {
        if |data| >= 1 { lastState := Some(data[0]); }
      } else if setup.request == UPLOAD {
        uploadBytes := uploadBytes + |data|;
      } else {
        Note(UnexpectedIn(setup.request));
      }
    }

    method ProcessBulk(data: Bytes)
      modifies this`traffic
      ensures Value() == old(Value()).(traffic := old(traffic).Bulk(data))
    {
      traffic := traffic.Bulk(data);
    }

    method GetImages() returns (result: seq<Bytes>)
      ensures result == Value().Images()
    {
      result := images;
      if |currentImage| > 0 { result := result + [currentImage]; }
    }
  }

  // ---- Whole runs ----

  function Run(transferSize: uint16, requests: seq<Request>): State
    decreases |requests|
  {
    if requests == [] then Fresh(transferSize)
    else Step(Run(transferSize, requests[..|requests| - 1]), requests[|requests| - 1])
  }

  /** A class request, by its number (section 3 of the DFU 1.1 specification): 0 to detach, 1 to download, 2 to upload,
      3 for the status, 4 to clear it, 5 for the state, 6 to abort. */
  predicate Asks(r: Request, request: byte) {
    IsClassRequest(r) && r.setup.request == request
  }

  /** A class request, whatever its direction and recipient (section 9.3 of the USB 2.0 specification). */
  predicate IsClassRequest(r: Request) {
    0x20 <= r.setup.requestType < 0x40 || 0xA0 <= r.setup.requestType < 0xC0
  }

  /** The data a request downloads. */
  function Downloaded(r: Request): Bytes {
    if r.Out? && Asks(r, 1) && r.setup.length != 0 then r.data else []
  }

  /** A request that ends the image in flight: a download of nothing, or an abort. */
  predicate Terminates(r: Request) {
    r.Out? && ((Asks(r, 1) && r.setup.length == 0) || Asks(r, 6))
  }

  /** Downloaded data, or the mark that ends an image. */
  function Part(r: Request): Option<Bytes> {
    if Terminates(r) then None else Some(Downloaded(r))
  }

  function NonEmpty(segments: seq<Bytes>): seq<Bytes> {
    if segments == [] then []
    else (if segments[0] == [] then [] else [segments[0]]) + NonEmpty(segments[1..])
  }

  lemma {:induction false} NonEmptyAppend(a: seq<Bytes>, b: seq<Bytes>)
    ensures NonEmpty(a + b) == NonEmpty(a) + NonEmpty(b)
  {
    if a == [] {
      assert a + b == b;
    } else {
      assert (a + b)[1..] == a[1..] + b;
      NonEmptyAppend(a[1..], b);
    }
  }

  lemma NonEmptyOne(segment: Bytes)
    ensures NonEmpty([segment]) == if segment == [] then [] else [segment]
  {
    assert [segment][1..] == [];
  }

  /** The image in flight is the last segment, and the finished images are those before it that hold anything. */
  ghost predicate Holds(s: State, segments: seq<Bytes>)
    requires segments != []
  {
    s.current == segments[|segments| - 1] && s.images == NonEmpty(segments[..|segments| - 1])
  }

  /** What a step does to the images. */
  lemma StepMoves(s: State, r: Request)
    ensures var after := Step(s, r);
            if Terminates(r) then after.images == s.Images() && after.current == []
            else after.images == s.images && after.current == s.current + Downloaded(r)
  {
    assert s.current + [] == s.current;
  }

  lemma StepKeepsHolds(s: State, r: Request, segments: seq<Bytes>)
    requires segments != [] && Holds(s, segments)
    ensures Holds(Step(s, r), if Terminates(r) then segments + [[]] else Extended(segments, Downloaded(r)))
  {
    StepMoves(s, r);
    hide Step;
    hide Terminates;
    hide Downloaded;
    var init, last := segments[..|segments| - 1], segments[|segments| - 1];
    assert init + [last] == segments;
    NonEmptyAppend(init, [last]);
    NonEmptyOne(last);
    assert (segments + [[]])[..|segments|] == segments;
    assert (init + [last + Downloaded(r)])[..|init|] == init;
    assert last + [] == last;
  }

  lemma {:induction false} RunHolds(transferSize: uint16, requests: seq<Request>)
    ensures Holds(Run(transferSize, requests), Cut(PartsOf(Part, requests)))
    decreases |requests|
  {
    hide Holds;
    hide Step;
    if requests == [] {
      FreshHolds(transferSize);
    } else {
      var init, last := requests[..|requests| - 1], requests[|requests| - 1];
      assert init + [last] == requests;
      RunHolds(transferSize, init);
      PartsAppend(Part, init, last);
      CutStep(PartsOf(Part, init), Part(last));
      StepKeepsHolds(Run(transferSize, init), last, Cut(PartsOf(Part, init)));
    }
  }

  lemma FreshHolds(transferSize: uint16)
    ensures Holds(Fresh(transferSize), Cut(PartsOf(Part, [])))
  {
    assert Cut([])[..0] == [];
  }

  /** On every run the images are the downloaded data cut at the terminators, without the empty pieces. */
  lemma ImagesAreSegments(transferSize: uint16, requests: seq<Request>)
    ensures Run(transferSize, requests).Images() == NonEmpty(Cut(PartsOf(Part, requests)))
  {
    RunHolds(transferSize, requests);
    var segments := Cut(PartsOf(Part, requests));
    hide Run;
    hide Cut;
    assert segments[..|segments| - 1] + [segments[|segments| - 1]] == segments;
    NonEmptyAppend(segments[..|segments| - 1], [segments[|segments| - 1]]);
    NonEmptyOne(segments[|segments| - 1]);
    assert NonEmpty(segments[..|segments| - 1]) + [] == NonEmpty(segments[..|segments| - 1]);
  }

  lemma {:induction false} FlatNonEmpty(segments: seq<Bytes>)
    ensures Flat(NonEmpty(segments)) == Flat(segments)
    ensures forall i | 0 <= i < |NonEmpty(segments)| :: NonEmpty(segments)[i] != []
  {
    if segments == [] {
    } else {
      FlatNonEmpty(segments[1..]);
      var kept := if segments[0] == [] then [] else [segments[0]];
      FlatAppend(kept, NonEmpty(segments[1..]));
      if segments[0] != [] { FlatOne(segments[0]); }
    }
  }

  /** All the data downloaded, in order. */
  function AllDownloaded(requests: seq<Request>): Bytes {
    if requests == [] then [] else Downloaded(requests[0]) + AllDownloaded(requests[1..])
  }

  lemma {:induction false} GatheredIsDownloaded(requests: seq<Request>)
    ensures Gather(PartsOf(Part, requests)) == AllDownloaded(requests)
  {
    if requests == [] {
    } else {
      GatheredIsDownloaded(requests[1..]);
      assert Terminates(requests[0]) ==> Downloaded(requests[0]) == [];
    }
    hide Downloaded;
    hide Terminates;
  }

  /** Nothing downloaded is lost, repeated or put out of order, and no image is empty. */
  lemma ImagesConserveData(transferSize: uint16, requests: seq<Request>)
    ensures Flat(Run(transferSize, requests).Images()) == AllDownloaded(requests)
    ensures forall i | 0 <= i < |Run(transferSize, requests).images| :: Run(transferSize, requests).images[i] != []
  {
    ImagesAreSegments(transferSize, requests);
    FlatNonEmpty(Cut(PartsOf(Part, requests)));
    FlatCut(PartsOf(Part, requests));
    GatheredIsDownloaded(requests);
    hide Cut;
    var s := Run(transferSize, requests);
    hide Run;
    assert forall i | 0 <= i < |s.images| :: s.images[i] == s.Images()[i];
  }

  // ---- What else a run leaves behind ----

  /** A reply that tells the state: of a status at least five bytes, of a state at least one. */
  predicate Reports(r: Request) {
    r.In? && ((Asks(r, 3) && |r.data| >= 5) || (Asks(r, 5) && |r.data| >= 1))
  }

  /** Status, poll timeout in three bytes, state and string index; or the state by itself. */
  function Reported(r: Request): byte
    requires Reports(r)
  {
    if r.setup.request == 3 then r.data[4] else r.data[0]
  }

  predicate ReportsStatus(r: Request) { r.In? && Asks(r, 3) && |r.data| >= 5 }

  lemma ReportStep(s: State, r: Request)
    ensures Step(s, r).lastState == if Reports(r) then Some(Reported(r)) else s.lastState
    ensures Step(s, r).lastStatus == if ReportsStatus(r) then Some(r.data[0]) else s.lastStatus
  {
  }

  /** The state known is the one last reported. */
  lemma {:induction false} StateIsLastReport(transferSize: uint16, requests: seq<Request>, k: int)
    requires -1 <= k < |requests| && (k >= 0 ==> Reports(requests[k]))
    requires forall j | k < j < |requests| :: !Reports(requests[j])
    ensures Run(transferSize, requests).lastState == if k < 0 then None else Some(Reported(requests[k]))
    decreases |requests|
  {
    hide Step;
    hide Reported;
    if requests == [] {
    } else {
      var init := requests[..|requests| - 1];
      ReportStep(Run(transferSize, init), requests[|requests| - 1]);
      if k < |init| { StateIsLastReport(transferSize, init, k); }
    }
  }

  /** The status known is the one last reported. */
  lemma {:induction false} StatusIsLastReport(transferSize: uint16, requests: seq<Request>, k: int)
    requires -1 <= k < |requests| && (k >= 0 ==> ReportsStatus(requests[k]))
    requires forall j | k < j < |requests| :: !ReportsStatus(requests[j])
    ensures Run(transferSize, requests).lastStatus == if k < 0 then None else Some(requests[k].data[0])
    decreases |requests|
  {
    hide Step;
    if requests == [] {
    } else {
      var init := requests[..|requests| - 1];
      ReportStep(Run(transferSize, init), requests[|requests| - 1]);
      if k < |init| { StatusIsLastReport(transferSize, init, k); }
    }
  }

  /** The data uploaded, reply by reply. */
  function Uploaded(requests: seq<Request>): seq<Bytes>
    decreases |requests|
  {
    if requests == [] then []
    else
      var before, last := Uploaded(requests[..|requests| - 1]), requests[|requests| - 1];
      if last.In? && Asks(last, 2) then before + [last.data] else before
  }

  /** The data of all requests, those that are no class requests among them. */
  function Carried(requests: seq<Request>): seq<Bytes>
    decreases |requests|
  {
    if requests == [] then [] else Carried(requests[..|requests| - 1]) + [requests[|requests| - 1].data]
  }

  /** How often a request was made. */
  function Times(requests: seq<Request>, request: byte): nat
    decreases |requests|
  {
    if requests == [] then 0
    else Times(requests[..|requests| - 1], request) + (if Asks(requests[|requests| - 1], request) then 1 else 0)
  }

  /** Uploaded bytes, class requests of each number, and transfers are counted. */
  lemma {:induction false} RequestsAreCounted(transferSize: uint16, requests: seq<Request>, request: byte)
    ensures var s := Run(transferSize, requests);
            && s.uploadBytes == |Flat(Uploaded(requests))|
            && (if request in s.counts then s.counts[request] else 0) == Times(requests, request)
            && s.traffic == Traffic(|requests|, |Flat(Carried(requests))|, 0, 0)
    decreases |requests|
  {
    hide Asks;
    if requests == [] {
    } else {
      var init, last := requests[..|requests| - 1], requests[|requests| - 1];
      RequestsAreCounted(transferSize, init, request);
      CountStep(Run(transferSize, init), last, request);
      FlatOfLast(Uploaded(init), last.data);
      FlatOfLast(Carried(init), last.data);
      hide Step;
    }
  }

  lemma CountStep(s: State, r: Request, request: byte)
    ensures var after := Step(s, r);
            && after.uploadBytes == s.uploadBytes + (if r.In? && Asks(r, 2) then |r.data| else 0)
            && (if request in after.counts then after.counts[request] else 0)
               == (if request in s.counts then s.counts[request] else 0) + (if Asks(r, request) then 1 else 0)
            && after.traffic == s.traffic.Control(r.data)
  {
  }

  /** What is out of line in a request: OUT data of another length than announced, a block larger than the transfer size
      allows, an abort that cuts off an image, and requests that the direction has no use for. */
  function Oddities(transferSize: uint16, partial: Bytes, r: Request): seq<Anomaly> {
    if !IsClassRequest(r) then []
    else if r.In? then if r.setup.request in {2, 3, 5} then [] else [UnexpectedIn(r.setup.request)]
    else
      (if |r.data| == r.setup.length then [] else [LengthMismatch(r.setup.request, |r.data|, r.setup.length)])
      + (if r.setup.request == 1 && 0 < transferSize < r.setup.length
         then [ExceedsTransferSize(r.setup.length, transferSize)] else [])
      + (if r.setup.request == 6 && partial != [] then [AbortedDownload(|partial|)] else [])
      + (if r.setup.request in {0, 1, 4, 6} then [] else [UnexpectedOut(r.setup.request)])
  }

  /** The data downloaded since an image was last ended. */
  function Partial(requests: seq<Request>): Bytes {
    var segments := Cut(PartsOf(Part, requests));
    segments[|segments| - 1]
  }

  function AllOddities(transferSize: uint16, requests: seq<Request>): seq<Anomaly>
    decreases |requests|
  {
    if requests == [] then []
    else
      var init := requests[..|requests| - 1];
      AllOddities(transferSize, init) + Oddities(transferSize, Partial(init), requests[|requests| - 1])
  }

  lemma StepNotes(s: State, r: Request)
    ensures Step(s, r).anomalies == s.anomalies + Oddities(s.transferSize, s.current, r)
    ensures Step(s, r).transferSize == s.transferSize
  {
    var mismatch := Mismatch(r);
    assert s.anomalies + [] == s.anomalies && mismatch + [] == mismatch;
    Associates(s.anomalies, mismatch, [UnexpectedOut(r.setup.request)]);
    Associates(s.anomalies, mismatch, [AbortedDownload(|s.current|)]);
    Associates(s.anomalies, mismatch, [ExceedsTransferSize(r.setup.length, s.transferSize)]);
    assert mismatch + [] + [] == mismatch && mismatch + [] + [] + [] == mismatch;
  }

  /** On every run exactly what is out of line is noted, in order. */
  lemma {:induction false} OdditiesAreNoted(transferSize: uint16, requests: seq<Request>)
    ensures Run(transferSize, requests).anomalies == AllOddities(transferSize, requests)
    ensures Run(transferSize, requests).transferSize == transferSize
    decreases |requests|
  {
    hide Step;
    hide Oddities;
    hide Cut;
    if requests == [] {
    } else {
      var init, last := requests[..|requests| - 1], requests[|requests| - 1];
      OdditiesAreNoted(transferSize, init);
      RunHolds(transferSize, init);
      StepNotes(Run(transferSize, init), last);
    }
  }
}

/** The recovery mode decoder: commands and responses, announced uploads streamed over bulk OUT, and the console. */
module Recovery {
  import opened Wire
  import opened Cutting
  import opened InterfaceExperts
  import D = Device

  datatype Payload =
    | Command(request: byte, text: Bytes)
    | Response(request: byte, text: Bytes)
    | Upload(request: byte, data: Bytes)

  /** A transfer handed to the decoder. */
  datatype Input =
    | ControlOut(setup: D.Setup, data: Bytes)
    | ControlIn(setup: D.Setup, data: Bytes)
    | BulkOut(data: Bytes)
    | BulkIn(data: Bytes)

  /** Bytes up to the first NUL, or all of them. */
  function CString(data: Bytes): (text: Bytes)
    ensures text <= data && 0 !in text && (|text| < |data| ==> data[|text|] == 0)
  {
    if data == [] || data[0] == 0 then [] else [data[0]] + CString(data[1..])
  }

  datatype State = State(payloads: seq<Payload>, uploadOpen: bool, console: Bytes, traffic: Traffic)

  const START: State := State([], false, [], QUIET)

  /** Index of the last upload. */
  function LastUpload(payloads: seq<Payload>): Option<nat>
    decreases |payloads|
  {
    if payloads == [] then None
    else if payloads[|payloads| - 1].Upload? then Some(|payloads| - 1)
    else LastUpload(payloads[..|payloads| - 1])
  }

  lemma {:induction false} LastUploadIsLast(payloads: seq<Payload>)
    ensures match LastUpload(payloads)
            case None => forall i | 0 <= i < |payloads| :: !payloads[i].Upload?
            case Some(k) =>
              k < |payloads| && payloads[k].Upload? && forall i | k < i < |payloads| :: !payloads[i].Upload?
    decreases |payloads|
  {
    if payloads == [] {
    } else {
      var init := payloads[..|payloads| - 1];
      LastUploadIsLast(init);
      assert forall i | 0 <= i < |init| :: payloads[i] == init[i];
    }
  }

  /** An upload is open exactly when there is one. */
  predicate Sound(s: State) {
    s.uploadOpen <==> LastUpload(s.payloads).Some?
  }

  /** The state with an upload to add to: what arrives unannounced opens one. */
  function Opened(s: State): State {
    if s.uploadOpen then s else s.(payloads := s.payloads + [Upload(0, [])], uploadOpen := true)
  }

  function AppendUpload(s: State, data: Bytes): State {
    match LastUpload(s.payloads)
    case None => s
    case Some(k) =>
      if k < |s.payloads| && s.payloads[k].Upload?
      then s.(payloads := s.payloads[k := s.payloads[k].(data := s.payloads[k].data + data)])
      else s
  }

  function Step(s: State, i: Input): State {
    var traffic := if i.ControlOut? || i.ControlIn? then s.traffic.Control(i.data) else s.traffic.Bulk(i.data);
    Decode(s.(traffic := traffic), i)
  }

  function Decode(s: State, i: Input): State {
    match i
    case ControlOut(setup, data) =>
      if setup.requestType == 0x40 && data != [] then
        s.(payloads := s.payloads + [Command(setup.request, CString(data))])
      else if setup.requestType == 0x41 && setup.request == 0 then
        s.(payloads := s.payloads + [Upload(setup.request, [])], uploadOpen := true)
      else s
    case ControlIn(setup, data) =>
      if setup.requestType == 0xC0 && data != []
      then s.(payloads := s.payloads + [Response(setup.request, CString(data))]) else s
    case BulkOut(data) => if data == [] then s else AppendUpload(Opened(s), data)
    case BulkIn(data) => s.(console := s.console + data)
  }

  class RecoveryInterfaceExpert {
    var payloads: seq<Payload>
    var uploadOpen: bool
    var console: Bytes
    var traffic: Traffic

    function Value(): State
      reads this
    {
      State(payloads, uploadOpen, console, traffic)
    }

    constructor ()
      ensures Value() == START && Sound(Value())
    {
      payloads, uploadOpen, console, traffic := [], false, [], QUIET;
    }

    static method Text(data: Bytes) returns (text: Bytes)
      ensures text == CString(data)
    {
      var length := 0;
      assert data[0..] == data;
      while length < |data| && data[length] != 0
        invariant 0 <= length <= |data|
        invariant CString(data) == data[..length] + CString(data[length..])
      {
        assert data[length..][1..] == data[length + 1..];
        assert data[..length + 1] == data[..length] + [data[length]];
        Associates(data[..length], [data[length]], CString(data[length + 1..]));
        length := length + 1;
      }
      assert data[..length] + [] == data[..length];
      text := data[..length];
    }

    method ProcessControlOut(setup: D.Setup, data: Bytes)
      requires Sound(Value())
      modifies this`payloads, this`uploadOpen, this`traffic
      ensures Sound(Value()) && Value() == Step(old(Value()), ControlOut(setup, data))
    {
      hide Sound;
      hide CString;
      hide LastUpload;
      StepIsSound(Value(), ControlOut(setup, data));
      traffic := traffic.Control(data);
      if setup.requestType == 0x40 && |data| > 0 {
        var text := Text(data);
        payloads := payloads + [Command(setup.request, text)];
      } else if setup.requestType == 0x41 && setup.request == 0 {
        payloads := payloads + [Upload(setup.request, [])];
        uploadOpen := true;
      }
    }

    method ProcessControlIn(setup: D.Setup, data: Bytes)
      requires Sound(Value())
      modifies this`payloads, this`traffic
      ensures Sound(Value()) && Value() == Step(old(Value()), ControlIn(setup, data))
    {
      hide Sound;
      hide CString;
      hide LastUpload;
      StepIsSound(Value(), ControlIn(setup, data));
      traffic := traffic.Control(data);
      if setup.requestType == 0xC0 && |data| > 0 {
        var text := Text(data);
        payloads := payloads + [Response(setup.request, text)];
      }
    }

    /** The upload that bulk data belongs to. */
    method CurrentUpload() returns (k: nat)
      requires Sound(Value())
      modifies this`payloads, this`uploadOpen
      ensures Value() == Opened(old(Value())) && LastUpload(payloads) == Some(k)
      ensures k < |payloads| && payloads[k].Upload?
    {
      if !uploadOpen {
        payloads := payloads + [Upload(0, [])];
        uploadOpen := true;
      }

      var i := |payloads|;
      assert payloads[..i] == payloads;
      while i > 0
        invariant i <= |payloads| && LastUpload(payloads[..i]) == LastUpload(payloads)
      {
        assert payloads[..i][..i - 1] == payloads[..i - 1];
        if payloads[i - 1].Upload? { return i - 1; }
        i := i - 1;
      }
      // The search cannot come up empty
      assert false;
    }

    method ProcessBulkOut(data: Bytes)
      requires Sound(Value())
      modifies this`payloads, this`uploadOpen, this`traffic
      ensures Sound(Value()) && Value() == Step(old(Value()), BulkOut(data))
    {
      StepIsSound(Value(), BulkOut(data));
      traffic := traffic.Bulk(data);
      if |data| == 0 { return; }
      var k := CurrentUpload();
      payloads := payloads[k := payloads[k].(data := payloads[k].data + data)];
    }

    method ProcessBulkIn(data: Bytes)
      requires Sound(Value())
      modifies this`console, this`traffic
      ensures Sound(Value()) && Value() == Step(old(Value()), BulkIn(data))
    {
      traffic := traffic.Bulk(data);
      console := console + data;
    }
  }

  // ---- What every step keeps ----

  lemma LastUploadAppend(payloads: seq<Payload>, p: Payload)
    ensures LastUpload(payloads + [p]) == if p.Upload? then Some(|payloads|) else LastUpload(payloads)
  {
    assert (payloads + [p])[..|payloads|] == payloads;
  }

  lemma LastUploadUpdate(payloads: seq<Payload>, k: nat, data: Bytes)
    requires k < |payloads| && LastUpload(payloads) == Some(k) && payloads[k].Upload?
    ensures LastUpload(payloads[k := payloads[k].(data := data)]) == Some(k)
  {
    var after := payloads[k := payloads[k].(data := data)];
    LastUploadIsLast(payloads);
    LastUploadIsLast(after);
    hide LastUpload;
    assert forall i | 0 <= i < |payloads| :: after[i].Upload? <==> payloads[i].Upload?;
  }

  lemma OpenedIsOpen(s: State)
    requires Sound(s)
    ensures LastUpload(Opened(s).payloads).Some? && Opened(s).uploadOpen
  {
    LastUploadAppend(s.payloads, Upload(0, []));
    hide LastUpload;
  }

  /** On every run an upload is open exactly when there is one. */
  lemma StepIsSound(s: State, i: Input)
    requires Sound(s)
    ensures Sound(Step(s, i))
  {
    hide LastUpload;
    hide CString;
    match i {
      case ControlOut(setup, data) =>
        LastUploadAppend(s.payloads, Command(setup.request, CString(data)));
        LastUploadAppend(s.payloads, Upload(setup.request, []));
      case ControlIn(setup, data) =>
        LastUploadAppend(s.payloads, Response(setup.request, CString(data)));
      case BulkOut(data) =>
        var open := Opened(s);
        OpenedIsOpen(s);
        var k := LastUpload(open.payloads).value;
        LastUploadIsLast(open.payloads);
        LastUploadUpdate(open.payloads, k, open.payloads[k].data + data);
      case BulkIn(_) =>
    }
  }

  // ---- Whole runs ----

  /** A vendor request to an interface that announces a file. */
  predicate Announces(i: Input) {
    i.ControlOut? && i.setup.requestType == 0x41 && i.setup.request == 0
  }

  /** A vendor request to the device that carries a command. */
  predicate Commands(i: Input) {
    i.ControlOut? && i.setup.requestType == 0x40 && i.data != []
  }

  /** A vendor request to the device that is answered. */
  predicate Responds(i: Input) {
    i.ControlIn? && i.setup.requestType == 0xC0 && i.data != []
  }

  function Run(inputs: seq<Input>): State
    decreases |inputs|
  {
    if inputs == [] then START else Step(Run(inputs[..|inputs| - 1]), inputs[|inputs| - 1])
  }

  /** The data of the uploads, in order. */
  function Uploads(payloads: seq<Payload>): seq<Bytes>
    decreases |payloads|
  {
    if payloads == [] then []
    else
      var before, last := Uploads(payloads[..|payloads| - 1]), payloads[|payloads| - 1];
      if last.Upload? then before + [last.data] else before
  }

  /** The commands and responses, in order. */
  function Dialogue(payloads: seq<Payload>): seq<Payload>
    decreases |payloads|
  {
    if payloads == [] then []
    else
      var before, last := Dialogue(payloads[..|payloads| - 1]), payloads[|payloads| - 1];
      if last.Upload? then before else before + [last]
  }

  function Streamed(i: Input): Bytes {
    if i.BulkOut? then i.data else []
  }

  /** Streamed data, or the mark that starts a file. */
  function Part(i: Input): Option<Bytes> {
    if Announces(i) then None else Some(Streamed(i))
  }

  /** Data ahead of the first announcement is an upload of its own, if there is any. */
  function Files(segments: seq<Bytes>): seq<Bytes>
    requires segments != []
  {
    if segments[0] == [] then segments[1..] else segments
  }

  /** What was said, in order. */
  function Said(inputs: seq<Input>): seq<Payload>
    decreases |inputs|
  {
    if inputs == [] then []
    else
      var before, last := Said(inputs[..|inputs| - 1]), inputs[|inputs| - 1];
      if Commands(last) then before + [Command(last.setup.request, CString(last.data))]
      else if Responds(last) then before + [Response(last.setup.request, CString(last.data))]
      else before
  }

  lemma UploadsAppend(payloads: seq<Payload>, p: Payload)
    ensures Uploads(payloads + [p]) == Uploads(payloads) + if p.Upload? then [p.data] else []
    ensures Dialogue(payloads + [p]) == Dialogue(payloads) + if p.Upload? then [] else [p]
  {
    assert (payloads + [p])[..|payloads|] == payloads;
    assert Uploads(payloads) + [] == Uploads(payloads) && Dialogue(payloads) + [] == Dialogue(payloads);
  }

  /** Adding to the last upload adds to the last of their data, and leaves the rest of the payloads alone. */
  lemma {:induction false} UploadsUpdate(payloads: seq<Payload>, k: nat, data: Bytes)
    requires k < |payloads| && payloads[k].Upload? && forall i | k < i < |payloads| :: !payloads[i].Upload?
    ensures var after := payloads[k := payloads[k].(data := payloads[k].data + data)];
            var uploads := Uploads(payloads);
            && uploads != []
            && Uploads(after) == Extended(uploads, data)
            && Dialogue(after) == Dialogue(payloads)
    decreases |payloads|
  {
    var after := payloads[k := payloads[k].(data := payloads[k].data + data)];
    var init := payloads[..|payloads| - 1];
    if k == |payloads| - 1 {
      assert after[..k] == init;
    } else {
      assert after[..|payloads| - 1] == init[k := init[k].(data := init[k].data + data)];
      assert forall i | k < i < |init| :: init[i] == payloads[i];
      UploadsUpdate(init, k, data);
    }
  }

  lemma {:induction false} NoUploads(payloads: seq<Payload>)
    ensures Uploads(payloads) == [] <==> LastUpload(payloads).None?
    decreases |payloads|
  {
    if payloads == [] {
    } else {
      NoUploads(payloads[..|payloads| - 1]);
    }
  }

  /** What a run has reached: its uploads are the files streamed. */
  ghost predicate Holds(s: State, segments: seq<Bytes>)
    requires segments != []
  {
    Sound(s) && Uploads(s.payloads) == Files(segments) && (s.uploadOpen || segments == [[]])
  }

  /** Nothing but streamed data changes an upload. */
  lemma OtherUploads(s: State, i: Input)
    requires Streamed(i) == []
    ensures Uploads(Step(s, i).payloads) == Uploads(s.payloads) + if Announces(i) then [[]] else []
    ensures Step(s, i).uploadOpen <==> s.uploadOpen || Announces(i)
  {
    hide CString;
    hide Uploads;
    hide Dialogue;
    hide AppendUpload;
    hide Opened;
    assert Uploads(s.payloads) + [] == Uploads(s.payloads);
    match i {
      case ControlOut(setup, data) =>
        UploadsAppend(s.payloads, Command(setup.request, CString(data)));
        UploadsAppend(s.payloads, Upload(setup.request, []));
      case ControlIn(setup, data) =>
        UploadsAppend(s.payloads, Response(setup.request, CString(data)));
      case _ =>
    }
  }

  lemma StepKeepsHolds(s: State, i: Input, segments: seq<Bytes>)
    requires segments != [] && Holds(s, segments)
    ensures Holds(Step(s, i), if Announces(i) then segments + [[]] else Extended(segments, Streamed(i)))
  {
    hide Step;
    hide Sound;
    hide Uploads;
    hide LastUpload;
    StepIsSound(s, i);
    if Streamed(i) != [] {
      StreamKeepsHolds(s, i.data, segments);
    } else {
      OtherUploads(s, i);
      var last := segments[|segments| - 1];
      assert last + [] == last && segments[..|segments| - 1] + [last] == segments;
      assert Files(segments + [[]]) == Files(segments) + [[]];
      assert Uploads(s.payloads) + [] == Uploads(s.payloads);
    }
  }

  lemma FilesExtended(segments: seq<Bytes>, data: Bytes)
    requires segments != [] && data != []
    ensures Files(segments) != [] ==> Files(Extended(segments, data)) == Extended(Files(segments), data)
    ensures segments == [[]] ==> Files(Extended(segments, data)) == [data]
  {
    assert [] + data == data;
  }

  lemma StreamUploads(s: State, data: Bytes)
    requires Sound(s) && data != []
    ensures var uploads := if s.uploadOpen then Uploads(s.payloads) else Uploads(s.payloads) + [[]];
            && uploads != []
            && Uploads(Step(s, BulkOut(data)).payloads) == Extended(uploads, data)
            && Step(s, BulkOut(data)).uploadOpen
  {
    hide LastUpload;
    hide Uploads;
    hide Dialogue;
    hide Extended;
    hide Sound;
    var open := Opened(s);
    OpenedIsOpen(s);
    LastUploadIsLast(open.payloads);
    var k := LastUpload(open.payloads).value;
    UploadsUpdate(open.payloads, k, data);
    UploadsAppend(s.payloads, Upload(0, []));
  }

  lemma StreamKeepsHolds(s: State, data: Bytes, segments: seq<Bytes>)
    requires segments != [] && Holds(s, segments) && data != []
    ensures Holds(Step(s, BulkOut(data)), Extended(segments, data))
  {
    StepIsSound(s, BulkOut(data));
    StreamUploads(s, data);
    NoUploads(s.payloads);
    FilesExtended(segments, data);
    assert Sound(s);
    if !s.uploadOpen { assert Extended([[]], data) == [data]; }
    hide LastUpload;
    hide Uploads;
    hide Step;
    hide Extended;
  }

  lemma {:induction false} RunHolds(inputs: seq<Input>)
    ensures Holds(Run(inputs), Cut(PartsOf(Part, inputs)))
    decreases |inputs|
  {
    hide Holds;
    hide Step;
    if inputs == [] {
      StartHolds();
    } else {
      var init, last := inputs[..|inputs| - 1], inputs[|inputs| - 1];
      assert init + [last] == inputs;
      RunHolds(init);
      PartsAppend(Part, init, last);
      CutStep(PartsOf(Part, init), Part(last));
      StepKeepsHolds(Run(init), last, Cut(PartsOf(Part, init)));
    }
  }

  lemma StartHolds()
    ensures Holds(START, Cut(PartsOf(Part, [])))
  {
  }

  /** On every run the uploads are the bulk OUT data, cut at the announcements. */
  lemma UploadsAreFiles(inputs: seq<Input>)
    ensures Uploads(Run(inputs).payloads) == Files(Cut(PartsOf(Part, inputs)))
    ensures Run(inputs).uploadOpen <==> exists i :: 0 <= i < |Run(inputs).payloads| && Run(inputs).payloads[i].Upload?
  {
    RunHolds(inputs);
    LastUploadIsLast(Run(inputs).payloads);
    hide Run;
    hide Cut;
    hide LastUpload;
  }

  function AllStreamed(inputs: seq<Input>): Bytes {
    if inputs == [] then [] else Streamed(inputs[0]) + AllStreamed(inputs[1..])
  }

  lemma {:induction false} GatheredIsStreamed(inputs: seq<Input>)
    ensures Gather(PartsOf(Part, inputs)) == AllStreamed(inputs)
  {
    if inputs == [] {
    } else {
      GatheredIsStreamed(inputs[1..]);
      assert Announces(inputs[0]) ==> Streamed(inputs[0]) == [];
    }
    hide Announces;
    hide Streamed;
  }

  /** No streamed byte is lost, repeated or put out of order. */
  lemma UploadsConserveData(inputs: seq<Input>)
    ensures Flat(Uploads(Run(inputs).payloads)) == AllStreamed(inputs)
  {
    UploadsAreFiles(inputs);
    FlatCut(PartsOf(Part, inputs));
    GatheredIsStreamed(inputs);
    var segments := Cut(PartsOf(Part, inputs));
    hide Run;
    hide Cut;
    if segments[0] == [] { assert [] + Flat(segments[1..]) == Flat(segments[1..]); }
  }

  lemma StepSays(s: State, i: Input)
    requires Sound(s)
    ensures Dialogue(Step(s, i).payloads) == Dialogue(s.payloads) +
              if Commands(i) then [Command(i.setup.request, CString(i.data))]
              else if Responds(i) then [Response(i.setup.request, CString(i.data))]
              else []
  {
    hide CString;
    hide LastUpload;
    hide Dialogue;
    hide Uploads;
    assert Dialogue(s.payloads) + [] == Dialogue(s.payloads);
    match i {
      case ControlOut(setup, data) =>
        UploadsAppend(s.payloads, Command(setup.request, CString(data)));
        UploadsAppend(s.payloads, Upload(setup.request, []));
      case ControlIn(setup, data) =>
        UploadsAppend(s.payloads, Response(setup.request, CString(data)));
      case BulkOut(data) =>
        if data != [] {
          var open := Opened(s);
          OpenedIsOpen(s);
          LastUploadIsLast(open.payloads);
          UploadsUpdate(open.payloads, LastUpload(open.payloads).value, data);
          UploadsAppend(s.payloads, Upload(0, []));
        }
      case BulkIn(_) =>
    }
  }

  /** Commands and responses are kept in the order they were exchanged, whatever is uploaded between them. */
  lemma {:induction false} DialogueIsSaid(inputs: seq<Input>)
    ensures Sound(Run(inputs)) && Dialogue(Run(inputs).payloads) == Said(inputs)
    decreases |inputs|
  {
    hide Step;
    hide CString;
    hide Sound;
    if inputs == [] {
      StartHolds();
    } else {
      var init, last := inputs[..|inputs| - 1], inputs[|inputs| - 1];
      DialogueIsSaid(init);
      StepIsSound(Run(init), last);
      StepSays(Run(init), last);
    }
  }

  // ---- Everything in order ----

  /** A file was announced, or data streamed without. */
  predicate Opens(i: Input) { Announces(i) || Streamed(i) != [] }

  predicate SomeOpens(inputs: seq<Input>) {
    exists i | 0 <= i < |inputs| :: Opens(inputs[i])
  }

  /** What was exchanged, in order, uploads without their data: data that no announcement precedes is an upload too. */
  function Outline(inputs: seq<Input>): seq<Payload>
    decreases |inputs|
  {
    if inputs == [] then []
    else
      var init, last := inputs[..|inputs| - 1], inputs[|inputs| - 1];
      Outline(init)
      + if Commands(last) then [Command(last.setup.request, CString(last.data))]
        else if Responds(last) then [Response(last.setup.request, CString(last.data))]
        else if Announces(last) || (Opens(last) && !SomeOpens(init)) then [Upload(0, [])]
        else []
  }

  function Bared(payloads: seq<Payload>): seq<Payload>
    decreases |payloads|
  {
    if payloads == [] then []
    else
      var last := payloads[|payloads| - 1];
      Bared(payloads[..|payloads| - 1]) + [if last.Upload? then last.(data := []) else last]
  }

  lemma BaredAppend(payloads: seq<Payload>, p: Payload)
    ensures Bared(payloads + [p]) == Bared(payloads) + [if p.Upload? then p.(data := []) else p]
  {
    assert (payloads + [p])[..|payloads|] == payloads;
  }

  lemma {:induction false} BaredUpdate(payloads: seq<Payload>, k: nat, data: Bytes)
    requires k < |payloads| && payloads[k].Upload?
    ensures Bared(payloads[k := payloads[k].(data := data)]) == Bared(payloads)
    decreases |payloads|
  {
    var after, init := payloads[k := payloads[k].(data := data)], payloads[..|payloads| - 1];
    if k == |init| {
      assert after[..k] == init;
    } else {
      assert after[..|init|] == init[k := init[k].(data := data)];
      BaredUpdate(init, k, data);
    }
  }

  lemma BaredStep(s: State, i: Input)
    requires Sound(s)
    ensures Bared(Step(s, i).payloads) == Bared(s.payloads)
              + if Commands(i) then [Command(i.setup.request, CString(i.data))]
                else if Responds(i) then [Response(i.setup.request, CString(i.data))]
                else if Announces(i) || (Opens(i) && !s.uploadOpen) then [Upload(0, [])]
                else []
    ensures Step(s, i).uploadOpen <==> s.uploadOpen || Opens(i)
  {
    hide CString;
    hide LastUpload;
    hide Bared;
    assert Bared(s.payloads) + [] == Bared(s.payloads);
    match i {
      case ControlOut(setup, data) =>
        BaredAppend(s.payloads, Command(setup.request, CString(data)));
        BaredAppend(s.payloads, Upload(setup.request, []));
      case ControlIn(setup, data) =>
        BaredAppend(s.payloads, Response(setup.request, CString(data)));
      case BulkOut(data) =>
        var open := Opened(s);
        OpenedIsOpen(s);
        LastUploadIsLast(open.payloads);
        var k := LastUpload(open.payloads).value;
        BaredUpdate(open.payloads, k, open.payloads[k].data + data);
        BaredAppend(s.payloads, Upload(0, []));
      case BulkIn(_) =>
    }
  }

  /** On every run the payloads are those exchanged, in order; with UploadsAreFiles this is all they are. */
  lemma {:induction false} PayloadsAreOutlined(inputs: seq<Input>)
    ensures Sound(Run(inputs)) && Bared(Run(inputs).payloads) == Outline(inputs)
    ensures Run(inputs).uploadOpen <==> SomeOpens(inputs)
    decreases |inputs|
  {
    hide Step;
    hide Sound;
    hide Opens;
    hide Commands;
    hide Responds;
    if inputs == [] {
      StartHolds();
    } else {
      var init, last := inputs[..|inputs| - 1], inputs[|inputs| - 1];
      PayloadsAreOutlined(init);
      StepIsSound(Run(init), last);
      BaredStep(Run(init), last);
      SomeOpensMore(init, last);
      assert init + [last] == inputs;
    }
  }

  lemma SomeOpensMore(inputs: seq<Input>, last: Input)
    ensures SomeOpens(inputs + [last]) <==> SomeOpens(inputs) || Opens(last)
  {
    hide Opens;
    var whole := inputs + [last];
    assert whole[|inputs|] == last;
    if SomeOpens(inputs) {
      var i :| 0 <= i < |inputs| && Opens(inputs[i]);
      assert whole[i] == inputs[i];
    }
  }

  /** What the device wrote on the console, transfer by transfer. */
  function Written(inputs: seq<Input>): seq<Bytes>
    decreases |inputs|
  {
    if inputs == [] then []
    else
      var before, last := Written(inputs[..|inputs| - 1]), inputs[|inputs| - 1];
      if last.BulkIn? then before + [last.data] else before
  }

  /** The data of the control transfers, or of the bulk transfers. */
  function Carried(inputs: seq<Input>, control: bool): seq<Bytes>
    decreases |inputs|
  {
    if inputs == [] then []
    else
      var before, last := Carried(inputs[..|inputs| - 1], control), inputs[|inputs| - 1];
      if (last.ControlOut? || last.ControlIn?) == control then before + [last.data] else before
  }

  lemma ConsoleStep(s: State, i: Input)
    ensures Step(s, i).console == if i.BulkIn? then s.console + i.data else s.console
    ensures Step(s, i).traffic
         == if i.ControlOut? || i.ControlIn? then s.traffic.Control(i.data) else s.traffic.Bulk(i.data)
  {
  }

  /** The console is what the device wrote, in order, and every transfer is counted. */
  lemma {:induction false} ConsoleIsWritten(inputs: seq<Input>)
    ensures Run(inputs).console == Flat(Written(inputs))
    ensures Run(inputs).traffic == Traffic(|Carried(inputs, true)|, |Flat(Carried(inputs, true))|,
                                           |Carried(inputs, false)|, |Flat(Carried(inputs, false))|)
    decreases |inputs|
  {
    hide Step;
    if inputs == [] {
    } else {
      var init, last := inputs[..|inputs| - 1], inputs[|inputs| - 1];
      ConsoleIsWritten(init);
      ConsoleStep(Run(init), last);
      FlatOfLast(Written(init), last.data);
      FlatOfLast(Carried(init, last.ControlOut? || last.ControlIn?), last.data);
    }
  }
}

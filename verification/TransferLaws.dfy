/** Correlation over any interleaving, and what device sessions keep over any run. */
module TransferLaws {
  import opened Wire
  import D = Device
  import DL = DeviceLaws
  import opened Transfers

  function Init(ops: seq<Op>): seq<Op>
    requires ops != []
  {
    ops[..|ops| - 1]
  }

  function Last(ops: seq<Op>): Op
    requires ops != []
  {
    ops[|ops| - 1]
  }

  function Track(ops: seq<Op>): Correlator
    decreases |ops|
  {
    if ops == [] then IDLE else Correlate(Track(Init(ops)), Last(ops)).0
  }

  /** The calls a run of events completes, in order. */
  function Calls(ops: seq<Op>): seq<D.Call>
    decreases |ops|
  {
    if ops == [] then []
    else
      var call := Correlate(Track(Init(ops)), Last(ops)).1;
      Calls(Init(ops)) + if call.Some? then [call.value] else []
  }

  function RunOps(ops: seq<Op>): (h: Handle)
    ensures h.sessions != []
    decreases |ops|
  {
    if ops == [] then FIRST else Step(RunOps(Init(ops)), Last(ops))
  }

  function DispatchAll(calls: seq<D.Call>): (sessions: seq<D.State>)
    ensures sessions != []
    decreases |calls|
  {
    if calls == [] then [D.NEW] else Dispatch(DispatchAll(calls[..|calls| - 1]), calls[|calls| - 1])
  }

  /** A handle is its open transfers, and what its calls make of its devices. */
  lemma {:induction false} RunIsDispatch(ops: seq<Op>)
    ensures RunOps(ops) == Handle(Track(ops), DispatchAll(Calls(ops)))
    decreases |ops|
  {
    if ops == [] {
    } else {
      RunIsDispatch(Init(ops));
      var before, call := Calls(Init(ops)), Correlate(Track(Init(ops)), Last(ops)).1;
      if call.Some? { assert (before + [call.value])[..|before|] == before; }
      else { assert before + [] == before; }
      hide Correlate;
      hide Dispatch;
    }
  }

  // ---- Which transfers are open ----

  predicate Opens(op: Op, key: Key) {
    (op.BeginControl? || op.BeginBulk?) && op.StoredKey() == key
  }

  /** A control completion closes only a control transfer; a bulk completion or an abort closes any. */
  predicate Closes(op: Op, key: Key, control: bool) {
    || (op.EndControl? && op.StoredKey() == key && control)
    || (op.EndBulk? && op.StoredKey() == key)
    || (op.Abort? && (op.StoredKey() == key || (EndpointId(op.endpoint), op.id) == key))
  }

  /** Event k began the transfer that is open under the key. */
  ghost predicate OpenedBy(ops: seq<Op>, key: Key, k: int) {
    && 0 <= k < |ops| && Opens(ops[k], key)
    && forall j | k < j < |ops| :: !Opens(ops[j], key) && !Closes(ops[j], key, ops[k].BeginControl?)
  }

  /** The data appended to a key from event k on. */
  function Appended(ops: seq<Op>, key: Key, k: int): Bytes
    requires 0 <= k <= |ops|
    decreases |ops|
  {
    if |ops| == k then []
    else
      var before := Appended(Init(ops), key, k);
      if Last(ops).AppendControl? && Last(ops).StoredKey() == key then before + Last(ops).data else before
  }

  function Begun(op: Op): Pending
    requires op.BeginControl? || op.BeginBulk?
  {
    if op.BeginControl? then Pending(true, op.setup, op.data)
    else Pending(false, NO_SETUP, if EndpointIn(op.endpoint) then [] else op.data)
  }

  /** What is stored for the transfer event k began. */
  function StoredFrom(ops: seq<Op>, key: Key, k: int): Pending
    requires 0 <= k < |ops| && Opens(ops[k], key)
  {
    var begun := Begun(ops[k]);
    begun.(data := begun.data + Appended(ops, key, k + 1))
  }

  ghost predicate HoldsOpen(ops: seq<Op>, key: Key) {
    && (key in Track(ops).inflight <==> exists k :: OpenedBy(ops, key, k))
    && (forall k :: OpenedBy(ops, key, k) ==>
          key in Track(ops).inflight && Track(ops).inflight[key] == StoredFrom(ops, key, k))
  }

  /** What one event does to one key. */
  lemma CorrelateKey(c: Correlator, op: Op, key: Key)
    ensures var after := Correlate(c, op).0.inflight;
            if Opens(op, key) then key in after && after[key] == Begun(op)
            else if key in c.inflight && !Closes(op, key, c.inflight[key].control) then
              key in after && after[key] == c.inflight[key].(data := c.inflight[key].data
                + if op.AppendControl? && op.StoredKey() == key then op.data else [])
            else key !in after
  {
    if key in c.inflight { assert c.inflight[key].data + [] == c.inflight[key].data; }
  }

  lemma OpenedByStep(ops: seq<Op>, key: Key, k: int)
    requires ops != []
    ensures OpenedBy(ops, key, k) <==>
              if k == |ops| - 1 then Opens(Last(ops), key)
              else
                && OpenedBy(Init(ops), key, k) && !Opens(Last(ops), key)
                && !Closes(Last(ops), key, ops[k].BeginControl?)
  {
    hide Opens;
    hide Closes;
  }

  /** The in-flight map holds exactly the open transfers, each with its own submission and appended data. */
  lemma {:induction false} InflightIsOpen(ops: seq<Op>, key: Key)
    ensures HoldsOpen(ops, key)
    decreases |ops|
  {
    if ops == [] {
    } else {
      InflightIsOpen(Init(ops), key);
      InflightStep(ops, key);
    }
  }

  lemma InflightStep(ops: seq<Op>, key: Key)
    requires ops != [] && HoldsOpen(Init(ops), key)
    ensures HoldsOpen(ops, key)
  {
    var init, last := Init(ops), Last(ops);
    CorrelateKey(Track(init), last, key);
    hide Correlate;
    forall k
      ensures OpenedBy(ops, key, k) ==>
                key in Track(ops).inflight && Track(ops).inflight[key] == StoredFrom(ops, key, k)
    {
      OpenedByStep(ops, key, k);
      if OpenedBy(ops, key, k) {
        StoredStep(ops, key, k);
      }
    }
    if key in Track(ops).inflight {
      if Opens(last, key) {
        OpenedByStep(ops, key, |ops| - 1);
      } else {
        var k :| OpenedBy(init, key, k);
        OpenedByStep(ops, key, k);
      }
    }
  }

  lemma StoredStep(ops: seq<Op>, key: Key, k: int)
    requires 0 <= k < |ops| && Opens(ops[k], key)
    ensures if k == |ops| - 1 then StoredFrom(ops, key, k) == Begun(Last(ops))
            else var before := StoredFrom(Init(ops), key, k);
                 StoredFrom(ops, key, k) == before.(data := before.data
                   + if Last(ops).AppendControl? && Last(ops).StoredKey() == key then Last(ops).data else [])
  {
    var begun := Begun(ops[k]);
    if k == |ops| - 1 {
      assert begun.data + [] == begun.data;
    } else {
      var before, more := Appended(Init(ops), key, k + 1),
        if Last(ops).AppendControl? && Last(ops).StoredKey() == key then Last(ops).data else [];
      assert before + [] == before;
      assert Appended(ops, key, k + 1) == before + more;
      Associates(begun.data, before, more);
    }
  }

  /** The first, or the second when there is none. */
  function Preferred(first: Bytes, second: Bytes): Bytes {
    if first != [] then first else second
  }

  /** The call due for a control transfer: IN data is what the completion brings, and OUT data what was stored with the
      submission or after it; only when that is empty it is the other, and no more of it than was asked for. */
  function ControlDue(endpoint: byte, setup: D.Setup, stored: Bytes, data: Bytes): D.Call {
    if setup.requestType >= 0x80 then
      var payload := Preferred(data, stored);
      D.ControlIn(endpoint % 0x80, setup, payload[..Min(|payload|, setup.length)])
    else
      var payload := Preferred(stored, data);
      D.ControlOut(endpoint % 0x80, setup, payload[..Min(|payload|, setup.length)])
  }

  /** A control completion is dispatched exactly when its own submission is still open, with that submission's setup
      and the payload the direction calls for; nothing else about the run matters. */
  lemma ControlCompletion(ops: seq<Op>, endpoint: byte, id: uint64, data: Bytes)
    ensures var op := Op.EndControl(endpoint, id, data);
            var key := op.StoredKey();
            && ((forall k :: OpenedBy(ops, key, k) ==> !ops[k].BeginControl?) ==>
                  Calls(ops + [op]) == Calls(ops) && Track(ops + [op]).unmatched == Track(ops).unmatched + 1)
            && (forall k :: OpenedBy(ops, key, k) && ops[k].BeginControl? ==>
                  && Calls(ops + [op]) == Calls(ops)
                       + [ControlDue(endpoint, ops[k].setup, ops[k].data + Appended(ops, key, k + 1), data)]
                  && key !in Track(ops + [op]).inflight)
  {
    var op := Op.EndControl(endpoint, id, data);
    var key := op.StoredKey();
    InflightIsOpen(ops, key);
    assert Init(ops + [op]) == ops && Last(ops + [op]) == op;
    assert Calls(ops) + [] == Calls(ops);
    hide Appended;
  }

  function BulkDue(endpoint: byte, stored: Bytes, data: Bytes): D.Call {
    if endpoint >= 0x80 then D.BulkIn(endpoint % 0x80, data) else D.BulkOut(endpoint % 0x80, Preferred(data, stored))
  }

  /** A bulk completion is always dispatched; OUT data left out of it is taken from its own submission. */
  lemma BulkCompletion(ops: seq<Op>, endpoint: byte, id: uint64, data: Bytes)
    ensures var op := Op.EndBulk(endpoint, id, data);
            var key := op.StoredKey();
            && ((forall k :: !OpenedBy(ops, key, k)) ==>
                  && Calls(ops + [op]) == Calls(ops) + [BulkDue(endpoint, [], data)]
                  && Track(ops + [op]).unmatched == Track(ops).unmatched + 1)
            && (forall k :: OpenedBy(ops, key, k) ==>
                  Calls(ops + [op]) == Calls(ops) + [BulkDue(endpoint, StoredFrom(ops, key, k).data, data)])
  {
    var op := Op.EndBulk(endpoint, id, data);
    var key := op.StoredKey();
    InflightIsOpen(ops, key);
    assert Init(ops + [op]) == ops && Last(ops + [op]) == op;
    hide Appended;
  }

  /** Other events dispatch nothing, and what an abort names is no longer open, so it is never dispatched. */
  lemma NothingElseIsDispatched(ops: seq<Op>, op: Op)
    requires !op.EndControl? && !op.EndBulk?
    ensures Calls(ops + [op]) == Calls(ops) && Track(ops + [op]).unmatched == Track(ops).unmatched
    ensures op.Abort? ==> {(op.endpoint, op.id), (EndpointId(op.endpoint), op.id)} !! Track(ops + [op]).inflight.Keys
  {
    assert Init(ops + [op]) == ops && Last(ops + [op]) == op;
    assert Calls(ops) + [] == Calls(ops);
  }

  /** The event is about the transfer stored under the key. */
  predicate Involves(op: Op, key: Key) {
    op.StoredKey() == key || (op.Abort? && (EndpointId(op.endpoint), op.id) == key)
  }

  predicate Appends(op: Op, key: Key) {
    op.AppendControl? && op.StoredKey() == key
  }

  /** Nothing but more data happens to the transfer. */
  predicate OnlyAppends(ops: seq<Op>, key: Key) {
    forall i | 0 <= i < |ops| :: Appends(ops[i], key) || !Involves(ops[i], key)
  }

  /** The data added to the transfer. */
  function Added(ops: seq<Op>, key: Key): Bytes {
    if ops == [] then [] else (if Appends(ops[0], key) then ops[0].data else []) + Added(ops[1..], key)
  }

  /** The events of other transfers. */
  function Others(ops: seq<Op>, key: Key): seq<Op> {
    if ops == [] then [] else (if Appends(ops[0], key) then [] else [ops[0]]) + Others(ops[1..], key)
  }

  /** A payload may come with the submission or be added to it in any portions, with any events of other transfers in
      between. */
  lemma {:induction false} AppendedInPortions(h: Handle, endpoint: byte, id: uint64, setup: D.Setup, data: Bytes,
                                              ops: seq<Op>)
    requires h.sessions != [] && OnlyAppends(ops, (EndpointId(endpoint), id))
    ensures var key := (EndpointId(endpoint), id);
            StepAll(Step(h, BeginControl(endpoint, id, setup, data)), ops)
            == StepAll(Step(h, BeginControl(endpoint, id, setup, data + Added(ops, key))), Others(ops, key))
    decreases |ops|
  {
    hide Step;
    hide Involves;
    var key := (EndpointId(endpoint), id);
    if ops == [] {
      assert data + [] == data;
    } else {
      var op, rest := ops[0], ops[1..];
      assert OnlyAppends(rest, key);
      if Appends(op, key) {
        AppendIsAdded(h, endpoint, id, setup, data, op);
        AppendedInPortions(h, endpoint, id, setup, data + op.data, rest);
        Associates(data, op.data, Added(rest, key));
        assert [] + Others(rest, key) == Others(rest, key);
      } else {
        OthersCommute(h, endpoint, id, setup, data, op);
        OthersCommute(h, endpoint, id, setup, data + Added(rest, key), op);
        AppendedInPortions(Step(h, op), endpoint, id, setup, data, rest);
        assert [] + Added(rest, key) == Added(rest, key);
        assert ([op] + Others(rest, key))[0] == op && ([op] + Others(rest, key))[1..] == Others(rest, key);
      }
    }
  }

  lemma AppendIsAdded(h: Handle, endpoint: byte, id: uint64, setup: D.Setup, data: Bytes, op: Op)
    requires h.sessions != [] && Appends(op, (EndpointId(endpoint), id))
    ensures Step(Step(h, BeginControl(endpoint, id, setup, data)), op)
         == Step(h, BeginControl(endpoint, id, setup, data + op.data))
  {
    hide Dispatch;
    var key := (EndpointId(endpoint), id);
    var once := Step(Step(h, BeginControl(endpoint, id, setup, data)), op);
    assert once.correlator.inflight == h.correlator.inflight[key := Pending(true, setup, data + op.data)];
  }

  /** A submission and an event of another transfer may come in either order. */
  lemma OthersCommute(h: Handle, endpoint: byte, id: uint64, setup: D.Setup, data: Bytes, op: Op)
    requires h.sessions != [] && !Involves(op, (EndpointId(endpoint), id))
    ensures Step(Step(h, BeginControl(endpoint, id, setup, data)), op)
         == Step(Step(h, op), BeginControl(endpoint, id, setup, data))
  {
    hide Dispatch;
    hide ControlPayload;
    hide ControlCall;
    hide BulkCall;
    var key, begin := (EndpointId(endpoint), id), BeginControl(endpoint, id, setup, data);
    var one, two := Step(Step(h, begin), op), Step(Step(h, op), begin);
    assert one.correlator.inflight == two.correlator.inflight;
  }

  function StepAll(h: Handle, ops: seq<Op>): (r: Handle)
    requires h.sessions != []
    ensures r.sessions != []
    decreases |ops|
  {
    if ops == [] then h else StepAll(Step(h, ops[0]), ops[1..])
  }

  // ---- Transfers that interleave ----

  datatype TransferType = ControlType | BulkType | InterruptType

  /** A whole transfer, as a host performs it. IN transfers bring data back, OUT transfers take data along. A staged
      control transfer has its data in data stages of its own, as USBPcap tells them. */
  datatype Transfer = Transfer(kind: TransferType, endpoint: byte, setup: D.Setup, data: Bytes, staged: bool) {
    predicate In() { EndpointIn(endpoint) }

    /** The direction bits of a control transfer agree, and only control transfers have stages. */
    predicate Proper() { if kind.ControlType? then setup.In() == In() else !staged }

    /** The call a device must see: the payload cut to the length asked for. */
    function Expected(): D.Call {
      if kind.ControlType? then
        var payload := data[..Min(|data|, setup.length)];
        if setup.requestType >= 0x80 then D.ControlIn(endpoint % 0x80, setup, payload)
        else D.ControlOut(endpoint % 0x80, setup, payload)
      else if In() then D.BulkIn(endpoint % 0x80, data)
      else D.BulkOut(endpoint % 0x80, data)
    }

    /** What a device sees of a completion alone: a control transfer cannot be told without its setup packet, and OUT
        data came with the submission. */
    function Stray(): seq<D.Call> {
      if kind.ControlType? then []
      else [if In() then D.BulkIn(endpoint % 0x80, data) else D.BulkOut(endpoint % 0x80, [])]
    }
  }

  datatype Event =
    | Submit(id: uint64, transfer: Transfer)
    | Stage(id: uint64, transfer: Transfer, part: Bytes)
    | Complete(id: uint64, transfer: Transfer)
    | Abort(id: uint64, transfer: Transfer)
  {
    /** OUT data goes with the submission and IN data with the completion, unless it is staged. */
    function Data(): Bytes {
      match this
      case Submit(_, _) => if transfer.In() || transfer.staged then [] else transfer.data
      case Stage(_, _, part) => part
      case Complete(_, _) => if transfer.In() && !transfer.staged then transfer.data else []
      case Abort(_, _) => []
    }

    function Op(): Op {
      match this
      case Submit(_, _) =>
        if transfer.kind.ControlType? then BeginControl(transfer.endpoint, id, transfer.setup, Data())
        else BeginBulk(transfer.endpoint, id, Data())
      case Stage(_, _, _) => AppendControl(transfer.endpoint, id, Data())
      case Complete(_, _) =>
        if transfer.kind.ControlType? then EndControl(transfer.endpoint, id, Data())
        else EndBulk(transfer.endpoint, id, Data())
      case Abort(_, _) => Transfers.Op.Abort(transfer.endpoint, id)
    }

    function Key(): Key { Op().StoredKey() }
  }

  function OpsOf(events: seq<Event>): seq<Op> {
    seq(|events|, i requires 0 <= i < |events| => events[i].Op())
  }

  /** The last event about the transfer stored under a key, data stages aside. */
  function Latest(events: seq<Event>, key: Key): Option<Event>
    decreases |events|
  {
    if events == [] then None
    else
      var last := events[|events| - 1];
      if !last.Stage? && Involves(last.Op(), key) then Some(last) else Latest(events[..|events| - 1], key)
  }

  /** The data staged under the key since then. */
  function Staged(events: seq<Event>, key: Key): Bytes
    decreases |events|
  {
    if events == [] then []
    else
      var init, last := events[..|events| - 1], events[|events| - 1];
      if !Involves(last.Op(), key) then Staged(init, key)
      else if last.Stage? then Staged(init, key) + last.part
      else []
  }

  /** A transfer was submitted under the key, and has not been completed or aborted since. */
  predicate Pends(events: seq<Event>, key: Key) {
    var latest := Latest(events, key);
    latest.Some? && latest.value.Submit?
  }

  /** The calls due for an event. */
  function Due(before: seq<Event>, e: Event): seq<D.Call> {
    if !e.Complete? then []
    else if Pends(before, e.Key()) then [e.transfer.Expected()]
    else e.transfer.Stray()
  }

  /** The calls due for the completions among the events, in order. */
  function Completions(events: seq<Event>): seq<D.Call>
    decreases |events|
  {
    if events == [] then []
    else
      var init := events[..|events| - 1];
      Completions(init) + Due(init, events[|events| - 1])
  }

  /** The completion is of the transfer that is open under its stored key, if one is, and with all its data stages. */
  predicate Fitting(before: seq<Event>, e: Event) {
    e.Complete? && Pends(before, e.Key()) ==>
      && Latest(before, e.Key()) == Some(Submit(e.id, e.transfer))
      && Staged(before, e.Key()) == if e.transfer.staged then e.transfer.data else []
  }

  /** Every completion fits: the submission may be missing, as it is for a transfer that was under way when the capture
      started, but it is no other's. */
  predicate Matched(events: seq<Event>) {
    forall k | 0 <= k < |events| :: Fitting(events[..k], events[k])
  }

  lemma MatchedBefore(events: seq<Event>)
    requires events != [] && Matched(events)
    ensures Matched(events[..|events| - 1]) && Fitting(events[..|events| - 1], events[|events| - 1])
  {
    hide Fitting;
    var init := events[..|events| - 1];
    assert forall k | 0 <= k < |init| :: init[k] == events[k] && init[..k] == events[..k];
  }

  /** What is stored for a transfer that pends. */
  function PendingOf(events: seq<Event>, key: Key): Pending
    requires Pends(events, key)
  {
    var begun := Begun(Latest(events, key).value.Op());
    begun.(data := begun.data + Staged(events, key))
  }

  ghost predicate HoldsPending(events: seq<Event>, key: Key) {
    var inflight := Track(OpsOf(events)).inflight;
    && (key in inflight <==> Pends(events, key))
    && (key in inflight ==> inflight[key] == PendingOf(events, key))
  }

  /** What is in flight is what pends, as it was submitted and with what was staged since. */
  lemma {:induction false} PendingIsInflight(events: seq<Event>, key: Key)
    requires Matched(events)
    ensures HoldsPending(events, key)
    decreases |events|
  {
    hide Matched;
    hide Fitting;
    if events == [] {
    } else {
      MatchedBefore(events);
      PendingIsInflight(events[..|events| - 1], key);
      PendingStep(events[..|events| - 1], events[|events| - 1], key);
      assert events[..|events| - 1] + [events[|events| - 1]] == events;
    }
  }

  lemma PendingStep(events: seq<Event>, e: Event, key: Key)
    requires HoldsPending(events, key) && Fitting(events, e)
    ensures HoldsPending(events + [e], key)
  {
    var ops, was := OpsOf(events), Track(OpsOf(events)).inflight;
    OpsOfMore(events, e);
    assert Init(ops + [e.Op()]) == ops && Last(ops + [e.Op()]) == e.Op();
    CorrelateKey(Track(ops), e.Op(), key);
    hide Correlate;
    assert (events + [e])[..|events|] == events;
    if key in was {
      assert was[key].data + [] == was[key].data;
      if e.Stage? {
        Associates(Begun(Latest(events, key).value.Op()).data, Staged(events, key), e.part);
      }
    }
    if Opens(e.Op(), key) { assert Begun(e.Op()).data + [] == Begun(e.Op()).data; }
    hide OpsOf;
  }

  lemma OpsOfMore(events: seq<Event>, e: Event)
    ensures OpsOf(events + [e]) == OpsOf(events) + [e.Op()]
  {
    hide Event.Op;
  }

  lemma OwnCompletion(c: Correlator, e: Event, staged: Bytes)
    requires e.Complete? && e.transfer.Proper()
    requires staged == if e.transfer.staged then e.transfer.data else []
    requires e.Key() in c.inflight
    requires var begun := Begun(Submit(e.id, e.transfer).Op());
             c.inflight[e.Key()] == begun.(data := begun.data + staged)
    ensures Correlate(c, e.Op()).1 == Some(e.transfer.Expected())
  {
    var t := e.transfer;
    assert [] + staged == staged && t.data + [] == t.data;
  }

  lemma StrayCompletion(c: Correlator, e: Event)
    requires e.Complete? && e.Key() !in c.inflight && (!e.transfer.kind.ControlType? ==> !e.transfer.staged)
    ensures var call := Correlate(c, e.Op()).1; e.transfer.Stray() == if call.Some? then [call.value] else []
  {
  }

  /** An event makes exactly the calls due for it. */
  lemma MakesDue(events: seq<Event>, e: Event)
    requires HoldsPending(events, e.Key()) && e.transfer.Proper() && Fitting(events, e)
    ensures Calls(OpsOf(events) + [e.Op()]) == Calls(OpsOf(events)) + Due(events, e)
  {
    var ops, op := OpsOf(events), e.Op();
    assert Init(ops + [op]) == ops && Last(ops + [op]) == op;
    if e.Complete? {
      if Pends(events, e.Key()) {
        OwnCompletion(Track(ops), e, Staged(events, e.Key()));
      } else {
        StrayCompletion(Track(ops), e);
      }
      hide Correlate;
    } else {
      NothingElseIsDispatched(ops, op);
      hide Correlate;
      hide Calls;
      assert Calls(ops) + [] == Calls(ops);
    }
    hide Latest;
    hide Staged;
    hide OpsOf;
    hide Track;
    hide Event.Op;
    hide Event.Key;
    hide Transfer.Expected;
    hide Transfer.Stray;
  }

  /** Over any interleaving, with transfers left open, aborted or begun before the capture, and with data in stages, the
      calls are exactly those due for the completions, in order, each with its own setup and payload. */
  lemma {:induction false} CallsAreCompletions(events: seq<Event>)
    requires Matched(events) && forall k | 0 <= k < |events| :: events[k].transfer.Proper()
    ensures Calls(OpsOf(events)) == Completions(events)
    decreases |events|
  {
    hide Matched;
    hide Fitting;
    hide HoldsPending;
    hide Pends;
    hide Latest;
    hide Due;
    hide Event.Op;
    hide Event.Key;
    hide Transfer.Proper;
    if events == [] {
    } else {
      var init, last := events[..|events| - 1], events[|events| - 1];
      assert init + [last] == events;
      MatchedBefore(events);
      CallsAreCompletions(init);
      PendingIsInflight(init, last.Key());
      MakesDue(init, last);
      OpsOfMore(init, last);
    }
  }

  // ---- Sessions ----

  /** Calls as correlation makes them: the direction of a control call is its setup's. */
  predicate Directed(call: D.Call) {
    (call.ControlIn? ==> call.setup.In()) && (call.ControlOut? ==> !call.setup.In())
  }

  lemma {:induction false} CallsAreDirected(ops: seq<Op>)
    ensures forall i | 0 <= i < |Calls(ops)| :: Directed(Calls(ops)[i])
    decreases |ops|
  {
    if ops == [] {
    } else {
      CallsAreDirected(Init(ops));
      var call := Correlate(Track(Init(ops)), Last(ops)).1;
      assert call.Some? ==> Directed(call.value);
      hide Correlate;
    }
  }

  /** Only a read that starts a new session could change a known descriptor. */
  lemma KnownDescriptorStays(s: D.State, call: D.Call)
    requires Directed(call) && !Reenumerates(s, call)
    ensures DL.Undisturbed(s, call)
  {
    hide D.ExpertForControl;
    hide D.ExpertForEndpoint;
    if call.ControlIn? {
      if call.setup.Standard() && call.setup.Recipient() == 0 { StandardDeviceIn(call.setup.requestType); }
      ConfigurationKeepsDescriptor(
        s.(controlPackets := s.controlPackets + 1, controlBytes := s.controlBytes + |call.data|), call.data);
    }
    hide D.ReadConfiguration;
  }

  /** A standard request to the device in the IN direction has request type 0x80. */
  lemma StandardDeviceIn(requestType: byte)
    requires requestType >= 0x80 && requestType / 0x20 % 4 == 0 && requestType % 0x20 == 0
    ensures requestType == 0x80
  {
  }

  lemma ConfigurationKeepsDescriptor(s: D.State, data: Bytes)
    ensures D.ReadConfiguration(s, data).descriptor == s.descriptor
  {
  }

  /** The session list over time: earlier sessions are closed, the current one is only ever added to. */
  ghost predicate Continues(a: seq<D.State>, b: seq<D.State>) {
    && 0 < |a| <= |b|
    && (forall i | 0 <= i < |a| - 1 :: b[i] == a[i])
    && DL.Later(a[|a| - 1], b[|a| - 1])
  }

  /** Every session but the last knows its device, and every session's store is consistent. */
  ghost predicate Sound(sessions: seq<D.State>) {
    && sessions != []
    && (forall i | 0 <= i < |sessions| - 1 :: sessions[i].descriptor.Some?)
    && (forall i | 0 <= i < |sessions| :: DL.Consistent(sessions[i]))
  }

  lemma DispatchStep(sessions: seq<D.State>, call: D.Call)
    requires Sound(sessions) && Directed(call)
    ensures Sound(Dispatch(sessions, call)) && Continues(sessions, Dispatch(sessions, call))
  {
    hide D.ReadDescriptor;
    hide D.ExpertForControl;
    hide D.ExpertForEndpoint;
    var current := sessions[|sessions| - 1];
    if Reenumerates(current, call) {
      DL.ApplyStep(D.NEW, call);
    } else {
      KnownDescriptorStays(current, call);
      DL.ApplyStep(current, call);
    }
    hide D.Apply;
    hide Reenumerates;
    hide DL.Consistent;
    assert DL.Later(current, current);
    hide DL.Later;
  }

  lemma ContinuesIsTransitive(a: seq<D.State>, b: seq<D.State>, c: seq<D.State>)
    requires Continues(a, b) && Continues(b, c)
    ensures Continues(a, c)
  {
    if |a| == |b| { DL.LaterIsTransitive(a[|a| - 1], b[|a| - 1], c[|a| - 1]); }
    hide DL.Later;
  }

  lemma {:induction false} DispatchedIsSound(calls: seq<D.Call>)
    requires forall i | 0 <= i < |calls| :: Directed(calls[i])
    ensures Sound(DispatchAll(calls))
    decreases |calls|
  {
    hide Directed;
    if calls == [] {
    } else {
      DispatchedIsSound(calls[..|calls| - 1]);
      DispatchStep(DispatchAll(calls[..|calls| - 1]), calls[|calls| - 1]);
    }
    hide Dispatch;
  }

  lemma {:induction false} DispatchContinues(calls: seq<D.Call>, more: seq<D.Call>)
    requires forall i | 0 <= i < |calls + more| :: Directed((calls + more)[i])
    ensures Continues(DispatchAll(calls), DispatchAll(calls + more))
    decreases |more|
  {
    hide Directed;
    hide Dispatch;
    var whole := calls + more;
    if more == [] {
      assert whole == calls;
      var s := DispatchAll(calls);
      assert DL.Later(s[|s| - 1], s[|s| - 1]);
    } else {
      var init := calls + more[..|more| - 1];
      assert whole[..|whole| - 1] == init;
      assert forall i | 0 <= i < |init| :: init[i] == whole[i];
      DispatchContinues(calls, more[..|more| - 1]);
      DispatchedIsSound(init);
      DispatchStep(DispatchAll(init), whole[|whole| - 1]);
      ContinuesIsTransitive(DispatchAll(calls), DispatchAll(init), DispatchAll(whole));
    }
  }

  lemma {:induction false} CallsExtend(ops: seq<Op>, more: seq<Op>)
    ensures Calls(ops) <= Calls(ops + more)
    decreases |more|
  {
    if more == [] {
      assert ops + more == ops;
    } else {
      assert Init(ops + more) == ops + Init(more);
      CallsExtend(ops, Init(more));
    }
  }

  /** Over every run: all sessions but the last know their device; sessions are only appended, and only the last is
      touched; a known descriptor never changes; stored configurations and their decoders are never replaced; and a
      configuration read once the descriptor is known has the decoders that descriptor and configuration call for. */
  lemma SessionSafety(ops: seq<Op>, more: seq<Op>)
    ensures Sound(RunOps(ops).sessions)
    ensures Continues(RunOps(ops).sessions, RunOps(ops + more).sessions)
  {
    hide Sound;
    hide Continues;
    hide DispatchAll;
    hide RunOps;
    hide Calls;
    hide Directed;
    RunIsDispatch(ops);
    RunIsDispatch(ops + more);
    CallsAreDirected(ops);
    CallsAreDirected(ops + more);
    CallsExtend(ops, more);
    var a, b := Calls(ops), Calls(ops + more);
    var rest := b[|a|..];
    assert a + rest == b;
    DispatchedIsSound(a);
    DispatchContinues(a, rest);
  }
}

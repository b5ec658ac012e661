/** A host that performs one transfer after the other: the plainest script, which meets all that the results over
    scripts ask for. */
module Conversations {
  import opened Wire
  import D = Device
  import TL = TransferLaws
  import F = FormatLaws
  import opened CaptureLaws
  import opened CaptureFiles
  import opened WholeStack

  // ---- Transfers in turn ----

  function EventsOf(transfers: seq<TL.Transfer>): seq<TL.Event>
    decreases |transfers|
  {
    if transfers == [] then []
    else
      var last := transfers[|transfers| - 1];
      EventsOf(transfers[..|transfers| - 1]) + [TL.Submit(0, last)] + [TL.Complete(0, last)]
  }

  /** Each transfer is submitted and completed before the next. */
  function InTurn(place: F.Place, transfers: seq<TL.Transfer>): seq<Happening>
    decreases |transfers|
  {
    if transfers == [] then []
    else
      var last := transfers[|transfers| - 1];
      InTurn(place, transfers[..|transfers| - 1])
      + [Happening(place, TL.Submit(0, last))] + [Happening(place, TL.Complete(0, last))]
  }

  function CallsOf(transfers: seq<TL.Transfer>): seq<D.Call>
    decreases |transfers|
  {
    if transfers == [] then []
    else CallsOf(transfers[..|transfers| - 1]) + [transfers[|transfers| - 1].Expected()]
  }

  predicate Writable(t: TL.Transfer) {
    t.Proper() && !t.staged && |t.data| < 0x1_0000_0000 - HEADER_ROOM
  }

  predicate AllWritable(transfers: seq<TL.Transfer>) {
    forall i | 0 <= i < |transfers| :: Writable(transfers[i])
  }

  lemma EventsMore(script: seq<Happening>, place: F.Place, e: TL.Event)
    ensures EventsAt(script + [Happening(place, e)], place) == EventsAt(script, place) + [e]
  {
    assert (script + [Happening(place, e)])[..|script|] == script;
  }

  /** A transfer that is submitted and completed at once makes its own call. */
  lemma InTurnCompletes(events: seq<TL.Event>, t: TL.Transfer)
    requires TL.Matched(events) && !t.staged
    ensures var all := events + [TL.Submit(0, t)] + [TL.Complete(0, t)];
            TL.Matched(all) && TL.Completions(all) == TL.Completions(events) + [t.Expected()]
  {
    hide TL.Transfer.Expected;
    hide TL.Transfer.Stray;
    var submit, complete := TL.Submit(0, t), TL.Complete(0, t);
    var n, begun, all := |events|, events + [submit], events + [submit] + [complete];
    assert begun[..n] == events && all[..n + 1] == begun && all[..n] == events;
    SubmitPends(events, t);
    hide TL.Event.Key;
    hide TL.Latest;
    hide TL.Staged;
    assert TL.Completions(begun) == TL.Completions(events) + [];
    assert TL.Completions(events) + [] == TL.Completions(events);
    forall k | 0 <= k < |all|
      ensures TL.Fitting(all[..k], all[k])
    {
      if k < n {
        assert all[k] == events[k] && all[..k] == events[..k];
      }
    }
  }

  lemma SubmitPends(events: seq<TL.Event>, t: TL.Transfer)
    ensures var key, all := TL.Complete(0, t).Key(), events + [TL.Submit(0, t)];
            TL.Latest(all, key) == Some(TL.Submit(0, t)) && TL.Pends(all, key) && TL.Staged(all, key) == []
  {
  }

  predicate StorableAt(script: seq<Happening>, place: F.Place) {
    forall i | 0 <= i < |script| ::
      && script[i].place == place && (script[i].event.Submit? || script[i].event.Complete?)
      && |script[i].event.transfer.data| < 0x1_0000_0000 - HEADER_ROOM
  }

  lemma {:induction false} InTurnIsStorable(place: F.Place, transfers: seq<TL.Transfer>)
    requires AllWritable(transfers)
    ensures StorableAt(InTurn(place, transfers), place)
    decreases |transfers|
  {
    hide TL.Transfer.Proper;
    if transfers == [] {
    } else {
      assert Writable(transfers[|transfers| - 1]);
      InTurnIsStorable(place, transfers[..|transfers| - 1]);
    }
  }

  lemma {:induction false} InTurnIs(place: F.Place, transfers: seq<TL.Transfer>)
    ensures EventsAt(InTurn(place, transfers), place) == EventsOf(transfers)
    decreases |transfers|
  {
    if transfers == [] {
    } else {
      hide EventsAt;
      var init, last := transfers[..|transfers| - 1], transfers[|transfers| - 1];
      InTurnIs(place, init);
      EventsMore(InTurn(place, init), place, TL.Submit(0, last));
      EventsMore(InTurn(place, init) + [Happening(place, TL.Submit(0, last))], place, TL.Complete(0, last));
    }
  }

  lemma {:induction false} EventsAreCalls(transfers: seq<TL.Transfer>)
    requires AllWritable(transfers)
    ensures TL.Matched(EventsOf(transfers)) && TL.Completions(EventsOf(transfers)) == CallsOf(transfers)
    decreases |transfers|
  {
    hide TL.Transfer.Expected;
    if transfers == [] {
    } else {
      hide TL.Matched;
      hide TL.Completions;
      var init, last := transfers[..|transfers| - 1], transfers[|transfers| - 1];
      EventsAreCalls(init);
      assert Writable(last);
      InTurnCompletes(EventsOf(init), last);
    }
  }

  predicate AllProper(events: seq<TL.Event>) {
    forall k | 0 <= k < |events| :: events[k].transfer.Proper()
  }

  lemma {:induction false} EventsAreProper(transfers: seq<TL.Transfer>)
    requires AllWritable(transfers)
    ensures AllProper(EventsOf(transfers))
    decreases |transfers|
  {
    hide TL.Transfer.Proper;
    if transfers == [] {
    } else {
      assert Writable(transfers[|transfers| - 1]);
      EventsAreProper(transfers[..|transfers| - 1]);
    }
  }

  lemma StorableAtPlace(format: F.Format, script: seq<Happening>, place: F.Place)
    requires StorableAt(script, place)
    ensures Storable(format, script) && Apart(format, script, place)
  {
    hide F.DeviceId;
  }

  /** A host that performs one transfer after the other, with one identifier for all, makes exactly their calls. */
  lemma InTurnPerforms(format: F.Format, place: F.Place, transfers: seq<TL.Transfer>)
    requires AllWritable(transfers)
    ensures Performs(format, InTurn(place, transfers), place, CallsOf(transfers))
  {
    InTurnIsStorable(place, transfers);
    StorableAtPlace(format, InTurn(place, transfers), place);
    InTurnIs(place, transfers);
    EventsAreCalls(transfers);
    EventsAreProper(transfers);
    hide StorableAt;
    hide Storable;
    hide Apart;
    hide InTurn;
    hide EventsOf;
    hide EventsAt;
    hide TL.Matched;
    hide TL.Completions;
    hide TL.Transfer.Proper;
  }

  lemma {:induction false} CallsConcat(a: seq<TL.Transfer>, b: seq<TL.Transfer>)
    ensures CallsOf(a + b) == CallsOf(a) + CallsOf(b)
    decreases |b|
  {
    hide TL.Transfer.Expected;
    if b == [] {
      assert a + b == a;
    } else {
      assert (a + b)[..|a + b| - 1] == a + b[..|b| - 1];
      CallsConcat(a, b[..|b| - 1]);
    }
  }

  lemma CallsMore(transfers: seq<TL.Transfer>, t: TL.Transfer)
    ensures CallsOf(transfers + [t]) == CallsOf(transfers) + [t.Expected()]
  {
    hide TL.Transfer.Expected;
    assert (transfers + [t])[..|transfers|] == transfers;
  }

  lemma PerformsStorable(format: F.Format, script: seq<Happening>, place: F.Place, calls: seq<D.Call>)
    requires Performs(format, script, place, calls)
    ensures Storable(format, script)
  {
  }
}

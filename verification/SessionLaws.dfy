/** When a device address gets a new session, and when two sessions in a row are of the same device. */
module SessionLaws {
  import opened Wire
  import D = Device
  import opened Transfers
  import opened TransferLaws

  // ---- What starts a session ----

  /** The read is one that a device takes its descriptor from. */
  predicate Accepted(call: D.Call) {
    call.ControlIn? && call.endpoint in {0, 0x80} && |call.data| >= 18 && call.data[1] == 1
  }

  /** A read of another descriptor starts a session, which knows a device, another than before, exactly when the read
      is accepted. */
  lemma NewSessionKnowsItsDevice(sessions: seq<D.State>, call: D.Call)
    requires sessions != [] && Directed(call) && Reenumerates(sessions[|sessions| - 1], call)
    ensures var after := Dispatch(sessions, call);
            && |after| == |sessions| + 1 && after[..|sessions|] == sessions
            && (after[|sessions|].descriptor.Some? <==> Accepted(call))
            && (Accepted(call) ==> after[|sessions|].descriptor != sessions[|sessions| - 1].descriptor)
  {
    hide D.ReadConfiguration;
    hide D.ExpertForControl;
    if call.endpoint % 0x80 == 0 { ReadsNewDescriptor(call); }
    hide D.Apply;
  }

  lemma ReadsNewDescriptor(call: D.Call)
    requires call.ControlIn? && call.endpoint % 0x80 == 0
    requires IsDeviceDescriptorRead(call.setup) && |call.data| >= D.USB_DT_DEVICE_SIZE
    ensures D.Apply(D.NEW, call).descriptor
         == if call.data[1] == D.USB_DT_DEVICE then Some(call.data[..D.USB_DT_DEVICE_SIZE]) else None
  {
    hide D.ReadConfiguration;
    hide D.ExpertForControl;
    assert call.setup.Standard() && call.setup.Recipient() == 0;
  }

  /** So sessions in a row may be of the same device: a rejected read comes in between. */
  lemma SessionsMayRepeat(setup: D.Setup, device: Bytes, other: Bytes)
    requires IsDeviceDescriptorRead(setup)
    requires |device| == |other| == D.USB_DT_DEVICE_SIZE && device[1] == D.USB_DT_DEVICE != other[1]
    ensures var sessions := DispatchAll([D.ControlIn(0, setup, device), D.ControlIn(0, setup, other),
                D.ControlIn(0, setup, device)]);
            |sessions| == 2 && sessions[0].descriptor == sessions[1].descriptor == Some(device)
  {
    hide D.Apply;
    hide Dispatch;
    hide DispatchAll;
    hide IsDeviceDescriptorRead;
    var first, second := D.ControlIn(0, setup, device), D.ControlIn(0, setup, other);
    ReadsNewDescriptor(first);
    ReadsNewDescriptor(second);
    assert device[..18] == device && other[..18] == other;
    var known, blank := D.Apply(D.NEW, first), D.Apply(D.NEW, second);
    RejectedReadParts(first, second);
    DispatchLast([known], blank, first);
    RereadDescriptor(blank, first);
    DispatchMore([first, second], first);
    assert [known] + [blank] == [known, blank] && [first, second] + [first] == [first, second, first];
  }

  lemma RejectedReadParts(first: D.Call, second: D.Call)
    requires !Reenumerates(D.NEW, first) && Reenumerates(D.Apply(D.NEW, first), second)
    ensures DispatchAll([first, second]) == [D.Apply(D.NEW, first), D.Apply(D.NEW, second)]
  {
    hide D.Apply;
    hide Dispatch;
    hide Reenumerates;
    DispatchLast([], D.NEW, first);
    DispatchLast([], D.Apply(D.NEW, first), second);
    DispatchNone();
    DispatchMore([], first);
    DispatchMore([first], second);
    assert [] + [D.NEW] == [D.NEW] && [] + [first] == [first] && [first] + [second] == [first, second];
    assert [] + [D.Apply(D.NEW, first)] == [D.Apply(D.NEW, first)];
    hide DispatchAll;
  }

  lemma DispatchNone()
    ensures DispatchAll([]) == [D.NEW]
  {
  }

  lemma DispatchMore(calls: seq<D.Call>, call: D.Call)
    ensures DispatchAll(calls + [call]) == Dispatch(DispatchAll(calls), call)
  {
    hide Dispatch;
    assert (calls + [call])[..|calls|] == calls;
  }

  lemma DispatchLast(before: seq<D.State>, s: D.State, call: D.Call)
    ensures Dispatch(before + [s], call)
         == if Reenumerates(s, call) then before + [s] + [D.Apply(D.NEW, call)] else before + [D.Apply(s, call)]
  {
    hide D.Apply;
    assert (before + [s])[..|before|] == before;
  }

  lemma RereadDescriptor(s: D.State, call: D.Call)
    requires Accepted(call) && IsDeviceDescriptorRead(call.setup)
    ensures D.Apply(s, call).descriptor == Some(call.data[..D.USB_DT_DEVICE_SIZE])
  {
    hide D.ReadConfiguration;
    hide D.ExpertForControl;
    assert call.setup.Standard() && call.setup.Recipient() == 0;
  }

  // ---- When sessions repeat ----

  /** A device descriptor in full, as a host reads it (section 9.4.3 of the USB 2.0 specification). */
  predicate Reads(call: D.Call) {
    && call.ControlIn? && call.setup.requestType == 0x80 && call.setup.request == 6 && call.setup.value / 0x100 == 1
    && |call.data| >= 18
  }

  predicate Takes(call: D.Call) {
    Reads(call) && Accepted(call)
  }

  function Identified(call: D.Call): D.Descriptor
    requires Reads(call)
  {
    call.data[..18]
  }

  predicate NeighboursDiffer(sessions: seq<D.State>) {
    forall i | 0 <= i < |sessions| - 1 :: sessions[i].descriptor != sessions[i + 1].descriptor
  }

  /** The call gives the descriptor of the session before the last to the last, which has none. */
  predicate Restores(sessions: seq<D.State>, call: D.Call) {
    && |sessions| >= 2 && sessions[|sessions| - 1].descriptor.None?
    && Takes(call) && sessions[|sessions| - 2].descriptor == Some(Identified(call))
  }

  /** Without a new session, a call gives a descriptor exactly when it is a read taken in, and none is known. */
  lemma DescriptorAfter(s: D.State, call: D.Call)
    requires Directed(call) && !Reenumerates(s, call)
    ensures D.Apply(s, call).descriptor
         == if s.descriptor.None? && Takes(call) then Some(Identified(call)) else s.descriptor
  {
    if s.descriptor.Some? {
      KnownDescriptorStays(s, call);
    } else if Takes(call) {
      RereadDescriptor(s, call);
    } else {
      NoDescriptor(s, call);
    }
    hide D.Apply;
  }

  lemma NoDescriptor(s: D.State, call: D.Call)
    requires Directed(call) && !Takes(call) && s.descriptor.None?
    ensures D.Apply(s, call).descriptor.None?
  {
    hide D.ExpertForControl;
    hide D.ExpertForEndpoint;
    if call.ControlIn? {
      if call.setup.Standard() && call.setup.Recipient() == 0 { StandardDeviceIn(call.setup.requestType); }
      ConfigurationKeepsDescriptor(
        s.(controlPackets := s.controlPackets + 1, controlBytes := s.controlBytes + |call.data|), call.data);
    }
    hide D.ReadConfiguration;
  }

  // ---- The same by the calls alone ----

  /** The last of the calls that is a read taken in, or -1. */
  function LastTaken(calls: seq<D.Call>): (k: int)
    ensures -1 <= k < |calls|
    ensures k >= 0 ==> Takes(calls[k])
    decreases |calls|
  {
    if calls == [] then -1
    else if Takes(calls[|calls| - 1]) then |calls| - 1
    else LastTaken(calls[..|calls| - 1])
  }

  lemma {:induction false} NoneTakenSince(calls: seq<D.Call>)
    ensures forall j | LastTaken(calls) < j < |calls| :: !Takes(calls[j])
    decreases |calls|
  {
    hide Takes;
    if calls == [] || Takes(calls[|calls| - 1]) {
    } else {
      var init := calls[..|calls| - 1];
      NoneTakenSince(init);
      assert forall j | 0 <= j < |init| :: init[j] == calls[j];
    }
  }

  /** A read of a descriptor other than the given that the device does not take in. */
  predicate Disturbs(call: D.Call, known: D.Descriptor) {
    Reads(call) && !Takes(call) && Identified(call) != known
  }

  ghost predicate DisturbedSince(calls: seq<D.Call>, k: int, known: D.Descriptor) {
    exists j :: 0 <= j < |calls| && k < j && Disturbs(calls[j], known)
  }

  /** What the sessions know is told by the calls: nothing before the first read taken in; then the last one, unless a
      disturbing read followed, which leaves it to the session before. */
  ghost predicate Told(calls: seq<D.Call>, sessions: seq<D.State>) {
    var k, n := LastTaken(calls), |sessions|;
    && n >= 1
    && if k == -1 then n == 1 && sessions[0].descriptor.None?
       else
         var known := Identified(calls[k]);
         if DisturbedSince(calls, k, known)
         then n >= 2 && sessions[n - 1].descriptor.None? && sessions[n - 2].descriptor == Some(known)
         else sessions[n - 1].descriptor == Some(known)
  }

  lemma DisturbedStep(calls: seq<D.Call>, k: int, known: D.Descriptor)
    requires calls != [] && k < |calls| - 1
    ensures DisturbedSince(calls, k, known)
       <==> DisturbedSince(calls[..|calls| - 1], k, known) || Disturbs(calls[|calls| - 1], known)
  {
    hide Disturbs;
    var init := calls[..|calls| - 1];
    assert forall j | 0 <= j < |init| :: init[j] == calls[j];
    if DisturbedSince(calls, k, known) && !Disturbs(calls[|calls| - 1], known) {
      var j :| 0 <= j < |calls| && k < j && Disturbs(calls[j], known);
      assert Disturbs(init[j], known);
    }
  }

  lemma ReenumeratesTells(s: D.State, call: D.Call)
    requires Directed(call)
    ensures Reenumerates(s, call) <==> s.descriptor.Some? && Reads(call) && Identified(call) != s.descriptor.value
  {
  }

  /** What a call does to the list of sessions, as far as descriptors go. */
  lemma TakesTells(sessions: seq<D.State>, call: D.Call)
    requires sessions != [] && Directed(call)
    ensures var n, last, after := |sessions|, sessions[|sessions| - 1], Dispatch(sessions, call);
            if last.descriptor.Some? && Reads(call) && Identified(call) != last.descriptor.value then
              && |after| == n + 1 && after[..n] == sessions
              && after[n].descriptor == if Takes(call) then Some(Identified(call)) else None
            else
              && |after| == n && after[..n - 1] == sessions[..n - 1]
              && after[n - 1].descriptor
                 == if last.descriptor.None? && Takes(call) then Some(Identified(call)) else last.descriptor
  {
    var last := sessions[|sessions| - 1];
    ReenumeratesTells(last, call);
    if Reenumerates(last, call) {
      NewSessionKnowsItsDevice(sessions, call);
      DescriptorAfter(D.NEW, call);
    } else {
      DescriptorAfter(last, call);
    }
    hide D.Apply;
    hide Takes;
  }

  /** A call keeps neighbouring sessions apart if and only if it does not restore a device. */
  lemma DispatchKeepsDifference(sessions: seq<D.State>, call: D.Call)
    requires sessions != [] && Directed(call) && NeighboursDiffer(sessions)
    requires forall i | 0 <= i < |sessions| - 1 :: sessions[i].descriptor.Some?
    ensures NeighboursDiffer(Dispatch(sessions, call)) <==> !Restores(sessions, call)
  {
    TakesTells(sessions, call);
    hide Dispatch;
    hide Takes;
    hide Reads;
    hide Identified;
    var n, after := |sessions|, Dispatch(sessions, call);
    assert forall i | 0 <= i < n - 1 :: after[i] == after[..n - 1][i] == sessions[i];
    if Restores(sessions, call) {
      assert after[n - 2].descriptor == after[n - 1].descriptor;
    } else {
      forall i | 0 <= i < |after| - 1
        ensures after[i].descriptor != after[i + 1].descriptor
      {
        if i + 1 < n { assert sessions[i].descriptor != sessions[i + 1].descriptor; }
      }
    }
  }

  lemma {:induction false} SessionsAreTold(calls: seq<D.Call>)
    requires forall i | 0 <= i < |calls| :: Directed(calls[i])
    ensures Told(calls, DispatchAll(calls))
    decreases |calls|
  {
    hide Directed;
    if calls == [] {
    } else {
      var init, last := calls[..|calls| - 1], calls[|calls| - 1];
      SessionsAreTold(init);
      assert Directed(last);
      ToldStep(init, last, DispatchAll(init));
      assert init + [last] == calls;
      hide Told;
      hide Dispatch;
    }
  }

  lemma ToldStep(init: seq<D.Call>, last: D.Call, sessions: seq<D.State>)
    requires Directed(last) && sessions != [] && Told(init, sessions)
    ensures Told(init + [last], Dispatch(sessions, last))
  {
    hide Dispatch;
    hide Directed;
    hide Reads;
    hide Identified;
    hide Accepted;
    var calls := init + [last];
    assert calls[..|calls| - 1] == init;
    TakesTells(sessions, last);
    var k := LastTaken(init);
    assert k >= 0 ==> calls[k] == init[k];
    if Takes(last) {
      NotDisturbedAtEnd(calls, Identified(last));
    } else if k >= 0 {
      DisturbedStep(calls, k, Identified(init[k]));
    }
    hide DisturbedSince;
  }

  lemma NotDisturbedAtEnd(calls: seq<D.Call>, known: D.Descriptor)
    requires calls != []
    ensures !DisturbedSince(calls, |calls| - 1, known)
  {
  }

  /** Calls i and k read the same device and are taken in, none between is, and call j between reads another. */
  predicate Repeats(calls: seq<D.Call>, i: int, j: int, k: int) {
    && 0 <= i < j < k < |calls|
    && Takes(calls[i]) && Takes(calls[k]) && Identified(calls[i]) == Identified(calls[k])
    && (forall m | i < m < k :: !Takes(calls[m]))
    && Disturbs(calls[j], Identified(calls[i]))
  }

  ghost predicate Repeating(calls: seq<D.Call>) {
    exists i, j, k :: Repeats(calls, i, j, k)
  }

  ghost predicate RepeatsAt(calls: seq<D.Call>, k: int) {
    exists i, j :: Repeats(calls, i, j, k)
  }

  lemma {:induction false} LastTakenIs(calls: seq<D.Call>, i: int)
    requires 0 <= i < |calls| && Takes(calls[i]) && forall m | i < m < |calls| :: !Takes(calls[m])
    ensures LastTaken(calls) == i
    decreases |calls|
  {
    hide Takes;
    if i == |calls| - 1 {
    } else {
      LastTakenIs(calls[..|calls| - 1], i);
    }
  }

  lemma RestoresIsRepeat(calls: seq<D.Call>)
    requires calls != [] && forall i | 0 <= i < |calls| :: Directed(calls[i])
    ensures Restores(DispatchAll(calls[..|calls| - 1]), calls[|calls| - 1]) <==> RepeatsAt(calls, |calls| - 1)
  {
    hide Directed;
    hide DispatchAll;
    hide LastTaken;
    hide Takes;
    hide Reads;
    hide Identified;
    hide Disturbs;
    var init, n := calls[..|calls| - 1], |calls| - 1;
    var last, k := calls[n], LastTaken(init);
    assert forall i | 0 <= i < |init| :: init[i] == calls[i];
    SessionsAreTold(init);
    NoneTakenSince(init);
    if Restores(DispatchAll(init), last) {
      TakesReads(init[k]);
      var j :| 0 <= j < |init| && k < j && Disturbs(init[j], Identified(init[k]));
      assert Repeats(calls, k, j, n);
    }
    if i, j :| Repeats(calls, i, j, n) {
      LastTakenIs(init, i);
      assert Disturbs(init[j], Identified(init[k]));
      assert DisturbedSince(init, k, Identified(init[k]));
    }
  }

  lemma TakesReads(call: D.Call)
    ensures Takes(call) ==> Reads(call)
  {
  }

  lemma RepeatingStep(calls: seq<D.Call>)
    requires calls != []
    ensures Repeating(calls) <==> Repeating(calls[..|calls| - 1]) || RepeatsAt(calls, |calls| - 1)
  {
    hide Takes;
    hide Disturbs;
    hide Identified;
    var init := calls[..|calls| - 1];
    assert forall i | 0 <= i < |init| :: init[i] == calls[i];
    if i, j, k :| Repeats(init, i, j, k) { assert Repeats(calls, i, j, k); }
    if i, j, k :| Repeats(calls, i, j, k) {
      if k < |calls| - 1 { assert Repeats(init, i, j, k); }
    }
  }

  lemma NothingRepeats()
    ensures NeighboursDiffer(DispatchAll([])) && !Repeating([])
  {
  }

  /** Two sessions in a row are of the same device if and only if a device was read, then another that was not taken in,
      and then the first again, with no other read taken in between. */
  lemma {:induction false} CallsRepeat(calls: seq<D.Call>)
    requires forall i | 0 <= i < |calls| :: Directed(calls[i])
    ensures NeighboursDiffer(DispatchAll(calls)) <==> !Repeating(calls)
    decreases |calls|
  {
    hide Repeating;
    hide RepeatsAt;
    hide Directed;
    if calls == [] {
      NothingRepeats();
    } else {
      var init, last := calls[..|calls| - 1], calls[|calls| - 1];
      assert forall i | 0 <= i < |init| :: init[i] == calls[i];
      assert Directed(last);
      CallsRepeat(init);
      RepeatingStep(calls);
      RestoresIsRepeat(calls);
      DispatchedIsSound(init);
      var sessions := DispatchAll(init);
      if NeighboursDiffer(sessions) {
        DispatchKeepsDifference(sessions, last);
      } else {
        SameStays(sessions, last);
      }
      hide Dispatch;
      hide Restores;
    }
  }

  lemma SameStays(sessions: seq<D.State>, call: D.Call)
    requires Sound(sessions) && Directed(call) && !NeighboursDiffer(sessions)
    ensures !NeighboursDiffer(Dispatch(sessions, call))
  {
    var i :| 0 <= i < |sessions| - 1 && sessions[i].descriptor == sessions[i + 1].descriptor;
    var n, after := |sessions|, Dispatch(sessions, call);
    TakesTells(sessions, call);
    DispatchStep(sessions, call);
    hide Dispatch;
    hide Takes;
    assert i < n - 1 ==> after[i] == after[..n - 1][i] == sessions[i];
    assert i + 1 < n - 1 ==> after[i + 1] == after[..n - 1][i + 1] == sessions[i + 1];
    assert after[i + 1].descriptor == sessions[i + 1].descriptor;
  }

  /** The same over every run of events on an address. */
  lemma SessionsRepeat(ops: seq<Op>)
    ensures NeighboursDiffer(RunOps(ops).sessions) <==> !Repeating(Calls(ops))
  {
    RunIsDispatch(ops);
    CallsAreDirected(ops);
    CallsRepeat(Calls(ops));
    hide NeighboursDiffer;
    hide Repeating;
    hide DispatchAll;
    hide RunOps;
    hide Calls;
  }
}

/** Each session of an address as the run of its own calls on a new device. */
module SessionRuns {
  import opened Wire
  import D = Device
  import opened Transfers
  import opened TransferLaws

  function ApplyAll(s: D.State, calls: seq<D.Call>): D.State
    decreases |calls|
  {
    if calls == [] then s else D.Apply(ApplyAll(s, calls[..|calls| - 1]), calls[|calls| - 1])
  }

  /** The session that takes the next call. */
  function Current(sessions: seq<D.State>): D.State
    requires sessions != []
  {
    sessions[|sessions| - 1]
  }

  /** None of the calls starts another session. */
  predicate Stays(s: D.State, calls: seq<D.Call>) {
    forall i | 0 <= i < |calls| :: !Reenumerates(ApplyAll(s, calls[..i]), calls[i])
  }

  lemma ApplyMore(s: D.State, calls: seq<D.Call>, call: D.Call)
    ensures ApplyAll(s, calls + [call]) == D.Apply(ApplyAll(s, calls), call)
  {
    hide D.Apply;
    assert (calls + [call])[..|calls|] == calls;
  }

  lemma {:induction false} ApplyConcat(s: D.State, a: seq<D.Call>, b: seq<D.Call>)
    ensures ApplyAll(s, a + b) == ApplyAll(ApplyAll(s, a), b)
    decreases |b|
  {
    hide D.Apply;
    if b == [] {
      assert a + b == a;
    } else {
      assert (a + b)[..|a + b| - 1] == a + b[..|b| - 1];
      ApplyConcat(s, a, b[..|b| - 1]);
    }
  }

  lemma StaysMore(s: D.State, calls: seq<D.Call>, call: D.Call)
    ensures Stays(s, calls + [call]) <==> Stays(s, calls) && !Reenumerates(ApplyAll(s, calls), call)
  {
    hide Reenumerates;
    hide ApplyAll;
    var whole := calls + [call];
    assert whole[..|calls|] == calls && whole[|calls|] == call;
    assert forall i | 0 <= i < |calls| :: whole[..i] == calls[..i] && whole[i] == calls[i];
    if Stays(s, whole) {
      forall i | 0 <= i < |calls|
        ensures !Reenumerates(ApplyAll(s, calls[..i]), calls[i])
      {
        assert !Reenumerates(ApplyAll(s, whole[..i]), whole[i]);
      }
      assert !Reenumerates(ApplyAll(s, whole[..|calls|]), whole[|calls|]);
    }
  }

  lemma {:induction false} StaysConcat(s: D.State, a: seq<D.Call>, b: seq<D.Call>)
    ensures Stays(s, a + b) <==> Stays(s, a) && Stays(ApplyAll(s, a), b)
    decreases |b|
  {
    hide D.Apply;
    hide Reenumerates;
    if b == [] {
      assert a + b == a;
    } else {
      hide Stays;
      var init, last := b[..|b| - 1], b[|b| - 1];
      assert a + b == (a + init) + [last] && init + [last] == b;
      StaysConcat(s, a, init);
      StaysMore(s, a + init, last);
      StaysMore(ApplyAll(s, a), init, last);
      ApplyConcat(s, a, init);
    }
  }

  lemma DispatchStays(sessions: seq<D.State>, call: D.Call)
    requires sessions != [] && !Reenumerates(Current(sessions), call)
    ensures Current(Dispatch(sessions, call)) == D.Apply(Current(sessions), call)
  {
    hide D.Apply;
    hide Reenumerates;
  }

  /** Calls stay in the session they find, unless one of them re-enumerates. */
  lemma {:induction false} CallsStayInSession(before: seq<D.Call>, calls: seq<D.Call>)
    requires Stays(Current(DispatchAll(before)), calls)
    ensures Current(DispatchAll(before + calls)) == ApplyAll(Current(DispatchAll(before)), calls)
    decreases |calls|
  {
    hide D.Apply;
    hide Dispatch;
    hide Reenumerates;
    hide Stays;
    if calls == [] {
      assert before + calls == before;
    } else {
      var init, last := calls[..|calls| - 1], calls[|calls| - 1];
      var whole := before + calls;
      assert whole[..|whole| - 1] == before + init && init + [last] == calls;
      StaysMore(Current(DispatchAll(before)), init, last);
      CallsStayInSession(before, init);
      DispatchStays(DispatchAll(before + init), last);
    }
  }

  /** The calls that each session takes. */
  function Spread(calls: seq<D.Call>): (parts: seq<seq<D.Call>>)
    ensures parts != []
    decreases |calls|
  {
    if calls == [] then [[]]
    else
      var init, last := calls[..|calls| - 1], calls[|calls| - 1];
      var parts := Spread(init);
      var n := |parts|;
      if Reenumerates(Current(DispatchAll(init)), last) then parts + [[last]]
      else parts[..n - 1] + [parts[n - 1] + [last]]
  }

  /** The session is what its calls make of a new device, and none of them starts another. */
  ghost predicate IsRun(session: D.State, part: seq<D.Call>) {
    session == ApplyAll(D.NEW, part) && Stays(D.NEW, part)
  }

  ghost predicate AreRuns(sessions: seq<D.State>, parts: seq<seq<D.Call>>) {
    |sessions| == |parts| > 0 && forall i | 0 <= i < |parts| :: IsRun(sessions[i], parts[i])
  }

  lemma RunContinues(session: D.State, part: seq<D.Call>, call: D.Call)
    requires IsRun(session, part) && !Reenumerates(session, call)
    ensures IsRun(D.Apply(session, call), part + [call])
  {
    hide D.Apply;
    hide Stays;
    hide Reenumerates;
    ApplyMore(D.NEW, part, call);
    StaysMore(D.NEW, part, call);
  }

  lemma RunStarts()
    ensures IsRun(D.NEW, [])
  {
  }

  lemma RunStep(sessions: seq<D.State>, parts: seq<seq<D.Call>>, call: D.Call)
    requires AreRuns(sessions, parts)
    ensures var n := |parts|;
            AreRuns(Dispatch(sessions, call),
                    if Reenumerates(Current(sessions), call) then parts + [[call]]
                    else parts[..n - 1] + [parts[n - 1] + [call]])
  {
    hide D.Apply;
    hide IsRun;
    var n := |parts|;
    if Reenumerates(Current(sessions), call) {
      RunStarts();
      RunContinues(D.NEW, [], call);
      assert [] + [call] == [call];
    } else {
      RunContinues(sessions[n - 1], parts[n - 1], call);
    }
    hide Reenumerates;
  }

  lemma {:induction false} FlatSpread(calls: seq<D.Call>)
    ensures Flat(Spread(calls)) == calls
    decreases |calls|
  {
    hide Reenumerates;
    hide DispatchAll;
    if calls == [] {
      assert Spread(calls)[1..] == [];
    } else {
      var init, last := calls[..|calls| - 1], calls[|calls| - 1];
      var parts, n := Spread(init), |Spread(init)|;
      FlatSpread(init);
      FlatOfLast(parts, [last]);
      FlatOfLast(parts[..n - 1], parts[n - 1]);
      FlatOfLast(parts[..n - 1], parts[n - 1] + [last]);
      assert parts[..n - 1] + [parts[n - 1]] == parts;
      Associates(Flat(parts[..n - 1]), parts[n - 1], [last]);
      assert init + [last] == calls;
    }
  }

  /** The sessions share the calls between them, in order, and each is the run of its own. */
  lemma {:induction false} SessionsAreRuns(calls: seq<D.Call>)
    ensures AreRuns(DispatchAll(calls), Spread(calls)) && Flat(Spread(calls)) == calls
    decreases |calls|
  {
    hide D.Apply;
    hide Reenumerates;
    hide AreRuns;
    FlatSpread(calls);
    if calls == [] {
      RunStarts();
      AreRunsOne(D.NEW, []);
    } else {
      var init, last := calls[..|calls| - 1], calls[|calls| - 1];
      SessionsAreRuns(init);
      RunStep(DispatchAll(init), Spread(init), last);
    }
    hide Dispatch;
  }

  lemma AreRunsOne(session: D.State, part: seq<D.Call>)
    requires IsRun(session, part)
    ensures AreRuns([session], [part])
  {
    hide IsRun;
  }
}

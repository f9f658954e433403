/** Fetching deferred events: an operation over several lock sections, with interrupts in between. */
module TransportFetch {
  import opened Bits
  import opened Options
  import opened TransportDelivery
  import opened TransportProofs
  import opened TransportSpec

  // ---- interrupts ----

  /** The steps an interrupt can take. */
  predicate FromInterrupt(st: Step) {
    st.Create? || st.Destroy? || st.Send? || st.SendAhead? || st.Lock? || st.Unlock?
  }

  /** The main loop's own state: where it is, what it has in hand, what it has deferred. */
  ghost predicate SameLoop(s: Sys, t: Sys) {
    && t.main == s.main && t.hand == s.hand && t.deferred == s.deferred && t.dcap == s.dcap
    && t.cap == s.cap && |t.work| == |s.work|
  }

  lemma InterruptLeavesLoop(s: Sys, st: Step)
    requires Inv(s) && Enabled(s, st) && FromInterrupt(st)
    ensures SameLoop(s, Next(s, st))
  {
    hide EventOk, Thread, NoRepeats, Occurs, RefValue;
  }

  /** One step of an interrupt, if it is one it can take now. */
  ghost function Interrupted(s: Sys, st: Step): (t: Sys)
    requires Inv(s)
    ensures Inv(t) && SameLoop(s, t)
  {
    if FromInterrupt(st) && Enabled(s, st) then
      StepKeeps(s, st);
      InterruptLeavesLoop(s, st);
      Next(s, st)
    else s
  }

  /** What is left after interrupts have done what they want. */
  ghost function Amid(s: Sys, steps: seq<Step>): (t: Sys)
    requires Inv(s)
    ensures Inv(t) && SameLoop(s, t)
    decreases |steps|
  {
    if steps == [] then s else Amid(Interrupted(s, steps[0]), steps[1..])
  }

  /** Interrupts that can take all their steps do take them, one after the other. */
  lemma {:induction false} InterruptsTakeEffect(s: Sys, steps: seq<Step>)
    requires Inv(s) && After(s, steps).Some?
    requires forall i | 0 <= i < |steps| ::
               var st := steps[i]; st.Create? || st.Destroy? || st.Send? || st.SendAhead? || st.Lock? || st.Unlock?
    ensures Some(Amid(s, steps)) == After(s, steps)
    decreases |steps|
  {
    hide Inv, Enabled, Next;
    if steps != [] {
      InvShape(s);
      StepKeeps(s, steps[0]);
      assert Interrupted(s, steps[0]) == Next(s, steps[0]);
      InterruptsTakeEffect(Next(s, steps[0]), steps[1..]);
    }
  }

  // ---- one fetch ----

  lemma FetchTakeShape(s: Sys, d: nat)
    requires Inv(s) && InHandler(s) && d < |s.deferred| && s.deferred[d] != []
    ensures Inv(Next(s, FetchTake(d))) && Next(s, FetchTake(d)).hand == Some(s.deferred[d][0])
    ensures Next(s, FetchTake(d)).deferred == s.deferred[d := s.deferred[d][1..]]
    ensures Next(s, FetchTake(d)).main == s.main && Next(s, FetchTake(d)).cap == s.cap
    ensures Next(s, FetchTake(d)).work == s.work && Next(s, FetchTake(d)).dcap == s.dcap
  {
    hide EventOk, Thread, NoRepeats, Occurs;
    StepKeeps(s, FetchTake(d));
  }

  /** What becomes of the event in hand, told before it is sent on. It is queued if it is within
      the limit and there is room; without room it is freed unless something else refers to it. */
  lemma FetchSendOutcome(s: Sys)
    requires Inv(s) && s.hand.Some?
    ensures var p, e, t := s.main.epa, s.hand.value, Next(s, FetchSend);
            && Inv(t) && InHandler(t) && p < |s.work| && e in s.events && t.hand == None
            && t.main == s.main && t.deferred == s.deferred && t.cap == s.cap && t.dcap == s.dcap
            && t.work == (if Accepting(s, p, e) then s.work[p := s.work[p] + [e]] else s.work)
            && (Sent(s, p, e).1 == NoError <==> Accepting(s, p, e))
            && (Sent(s, p, e).1 == NoReference <==> RefValue(s.events[e]) >= REF_LIMIT)
            && (e !in t.events <==>
                 s.events[e].attr.Dynamic? && |s.work[p]| == s.cap[p] && Count(s, e) == 0 && e !in s.leaked)
  {
    hide NoRepeats, Occurs;
    StepKeeps(s, FetchSend);
    HandExists(s);
    assert EventOk(s, s.hand.value) && Thread(s, s.main.epa);
    OrZero(0, 0);
  }

  /** `nepa_defer_fetch_one`, with what interrupts do between the get and the send. */
  ghost function FetchedAmid(s: Sys, d: nat, between: seq<Step>): (r: (Sys, Error))
    requires Inv(s) && InHandler(s) && d < |s.deferred|
    ensures Inv(r.0) && InHandler(r.0)
    ensures r.0.deferred == if s.deferred[d] == [] then s.deferred else s.deferred[d := s.deferred[d][1..]]
    ensures r.0.main == s.main && r.0.cap == s.cap
  {
    if s.deferred[d] == [] then (s, NoError)
    else
      FetchTakeShape(s, d);
      var t := Amid(Next(s, FetchTake(d)), between);
      FetchSendOutcome(t);
      (Next(t, FetchSend), Sent(t, t.main.epa, t.hand.value).1)
  }

  lemma NothingToFetch(s: Sys, d: nat, between: seq<Step>)
    requires Inv(s) && InHandler(s) && d < |s.deferred| && s.deferred[d] == []
    ensures FetchedAmid(s, d, between) == (s, NoError)
  {
  }

  lemma FetchTakeIs(s: Sys, d: nat)
    requires Inv(s) && InHandler(s) && d < |s.deferred| && s.deferred[d] != []
    ensures s.deferred[d][0] in s.events
    ensures s.events[s.deferred[d][0]].attr.Static? || s.events[s.deferred[d][0]].ref > 0
    ensures Next(s, FetchTake(d)) == Fetched(s, d)
  {
    FetchTakeKeeps(s, d);
  }

  lemma FetchSendIs(s: Sys)
    requires Inv(s) && s.hand.Some?
    ensures Shape(s) && s.hand.value in s.events && s.main.epa < |s.work|
    ensures s.ref[s.main.epa] > 0 ==> s.main.epa in s.ready
    ensures Next(s, FetchSend) == Sent(s, s.main.epa, s.hand.value).0.(hand := None)
  {
    HandExists(s);
    assert Thread(s, s.main.epa);
  }

  /** The statements of a fetch, and why each of them is defined. */
  lemma FetchSteps(s: Sys, d: nat, between: seq<Step>)
    requires Inv(s) && InHandler(s) && d < |s.deferred| && s.deferred[d] != []
    ensures s.deferred[d][0] in s.events
    ensures s.events[s.deferred[d][0]].attr.Static? || s.events[s.deferred[d][0]].ref > 0
    ensures Inv(Fetched(s, d)) && Fetched(s, d).hand == Some(s.deferred[d][0])
    ensures var t := Amid(Fetched(s, d), between);
            && Shape(t) && t.main == s.main && t.hand == Some(s.deferred[d][0]) && s.deferred[d][0] in t.events
            && t.main.epa < |t.work| && (t.ref[t.main.epa] > 0 ==> t.main.epa in t.ready)
            && var r := Sent(t, t.main.epa, s.deferred[d][0]);
            FetchedAmid(s, d, between) == (r.0.(hand := None), r.1)
  {
    hide Inv, Next, Sent, Fetched;
    FetchTakeIs(s, d);
    FetchTakeShape(s, d);
    FetchSendIs(Amid(Fetched(s, d), between));
  }

  // ---- draining ----

  /** What interrupts do in the i-th pass of a loop. */
  type Interrupts = nat -> seq<Step>

  function Quiet(): Interrupts {
    i => []
  }

  /** `nepa_defer_fetch_all` from its i-th pass on: it fetches until the queue is empty or one
      fetch fails, with interrupts between get and send and after each fetch. */
  ghost function Drained(s: Sys, d: nat, i: nat, between: Interrupts, after: Interrupts): (r: (Sys, Error))
    requires Inv(s) && InHandler(s) && d < |s.deferred|
    ensures Inv(r.0) && InHandler(r.0)
    decreases |s.deferred[d]|
  {
    if s.deferred[d] == [] then (s, NoError)
    else
      var (t, error) := FetchedAmid(s, d, between(i));
      var u := Amid(t, after(i));
      if error != NoError then (u, error) else Drained(u, d, i + 1, between, after)
  }

  // ---- the fetches of a run that are accepted ----

  /** Events in hand that are queued when they are sent on. */
  ghost function Forwards(): Observer {
    (s: Sys, st: Step) =>
      if st.FetchSend? && s.hand.Some? && !s.main.Scheduling? && |s.work| == |s.cap|
         && Accepting(s, s.main.epa, s.hand.value)
      then [s.hand.value] else []
  }

  lemma {:induction false} AmidIsRun(s: Sys, steps: seq<Step>, d: nat) returns (run: seq<Step>)
    requires Inv(s)
    ensures After(s, run) == Some(Amid(s, steps)) && forall i | 0 <= i < |run| :: FromInterrupt(run[i])
    ensures Observed(s, run, Fetches(d)) == [] && Observed(s, run, Forwards()) == []
    decreases |steps|
  {
    hide Inv, Enabled, Next;
    if steps == [] {
      run := [];
    } else {
      InvShape(s);
      var rest := AmidIsRun(Interrupted(s, steps[0]), steps[1..], d);
      if FromInterrupt(steps[0]) && Enabled(s, steps[0]) {
        run := [steps[0]] + rest;
        assert run[1..] == rest;
      } else {
        run := rest;
      }
    }
  }

  /** A single step as a run. */
  lemma OneStep(s: Sys, st: Step, note: Observer)
    requires Inv(s) && Enabled(s, st)
    ensures Inv(Next(s, st)) && After(s, [st]) == Some(Next(s, st)) && Observed(s, [st], note) == note(s, st)
  {
    hide Inv, Enabled, Next;
    StepKeeps(s, st);
    assert [st][1..] == [];
    assert note(s, st) + [] == note(s, st);
  }

  /** A run between two steps. */
  lemma Enclosed(s: Sys, first: Step, mid: seq<Step>, last: Step, note: Observer)
    requires Inv(s) && Enabled(s, first) && Inv(Next(s, first)) && After(Next(s, first), mid).Some?
    requires Enabled(After(Next(s, first), mid).value, last)
    ensures var u := After(Next(s, first), mid).value;
            && After(s, [first] + mid + [last]) == Some(Next(u, last))
            && Observed(s, [first] + mid + [last], note)
            == note(s, first) + Observed(Next(s, first), mid, note) + note(u, last)
  {
    hide Inv, Enabled, Next, After, Observed;
    var u := After(Next(s, first), mid).value;
    OneStep(s, first, note);
    OneStep(u, last, note);
    ObservedConcat(s, [first], mid, note);
    ObservedConcat(s, [first] + mid, [last], note);
  }

  /** One fetch is a run of protocol steps: the front event is taken, interrupts do what they want,
      and the event is forwarded exactly if no error is reported. */
  lemma FetchIsRun(s: Sys, d: nat, between: seq<Step>) returns (mid: seq<Step>)
    requires Inv(s) && InHandler(s) && d < |s.deferred| && s.deferred[d] != []
    ensures Inv(Next(s, FetchTake(d)))
            && After(Next(s, FetchTake(d)), mid) == Some(Amid(Next(s, FetchTake(d)), between))
    ensures var run := [FetchTake(d)] + mid + [FetchSend];
            && After(s, run) == Some(FetchedAmid(s, d, between).0)
            && Observed(s, run, Fetches(d)) == [s.deferred[d][0]]
            && Observed(s, run, Forwards()) ==
               if FetchedAmid(s, d, between).1 == NoError then [s.deferred[d][0]] else []
  {
    hide Inv, Next, Sent, RefValue, After, Observed, Amid, Accepting;
    FetchTakeShape(s, d);
    var t := Next(s, FetchTake(d));
    var u := Amid(t, between);
    mid := AmidIsRun(t, between, d);
    InvShape(u);
    FetchSendOutcome(u);
    Enclosed(s, FetchTake(d), mid, FetchSend, Fetches(d));
    Enclosed(s, FetchTake(d), mid, FetchSend, Forwards());
  }

  /** A drain of a queue that is not empty is a fetch, what interrupts do after it and, unless the
      fetch has failed, the drain of the rest. */
  lemma DrainPass(s: Sys, d: nat, i: nat, between: Interrupts, after: Interrupts)
    returns (mid: seq<Step>, rest: seq<Step>)
    requires Inv(s) && InHandler(s) && d < |s.deferred| && s.deferred[d] != []
    ensures var run := [FetchTake(d)] + mid + [FetchSend] + rest;
            && Inv(Next(s, FetchTake(d)))
            && After(Next(s, FetchTake(d)), mid) == Some(Amid(Next(s, FetchTake(d)), between(i)))
            && After(s, [FetchTake(d)] + mid + [FetchSend]).Some? && After(s, run).Some?
            && After(s, run).value == Amid(After(s, [FetchTake(d)] + mid + [FetchSend]).value, after(i))
            && InHandler(After(s, run).value) && d < |After(s, run).value.deferred|
            && Drained(s, d, i, between, after) ==
               var error := FetchedAmid(s, d, between(i)).1;
               if error != NoError then (After(s, run).value, error)
               else Drained(After(s, run).value, d, i + 1, between, after)
  {
    hide Inv, Next, After, Observed, FetchedAmid, Amid;
    var (t, error) := FetchedAmid(s, d, between(i));
    mid := FetchIsRun(s, d, between(i));
    rest := AmidIsRun(t, after(i), d);
    AfterConcat(s, [FetchTake(d)] + mid + [FetchSend], rest);
  }

  /** A drain, whatever interrupts do in it, is a run of protocol steps. It fetches a prefix of the
      deferred events in order and forwards all of them, or all but the last when a fetch fails.
      What holds of all runs holds of it. */
  lemma {:induction false} DrainIsRun(s: Sys, d: nat, i: nat, between: Interrupts, after: Interrupts)
    returns (run: seq<Step>, k: nat)
    requires Inv(s) && InHandler(s) && d < |s.deferred|
    ensures k <= |s.deferred[d]| && (Drained(s, d, i, between, after).1 == NoError <==> k == |s.deferred[d]|)
    ensures After(s, run) == Some(Drained(s, d, i, between, after).0)
    ensures Observed(s, run, Forwards()) == s.deferred[d][..k]
    ensures Observed(s, run, Fetches(d)) == if k == |s.deferred[d]| then s.deferred[d] else s.deferred[d][..k + 1]
    decreases |s.deferred[d]|
  {
    hide Inv, Next, After, Observed, FetchedAmid, Amid;
    run, k := [], 0;
    assert After(s, []) == Some(s) && Observed(s, [], Forwards()) == [] && Observed(s, [], Fetches(d)) == [] by {
      NoSteps(s, d);
    }
    var q := s.deferred[d];
    if q != [] {
      var (t, error) := FetchedAmid(s, d, between(i));
      var u := Amid(t, after(i));
      var mid := FetchIsRun(s, d, between(i));
      var fetch := [FetchTake(d)] + mid + [FetchSend];
      var quiet := AmidIsRun(t, after(i), d);
      ObservedConcat(s, fetch, quiet, Fetches(d));
      ObservedConcat(s, fetch, quiet, Forwards());
      run := fetch + quiet;
      if error == NoError {
        var rest, j := DrainIsRun(u, d, i + 1, between, after);
        ObservedConcat(s, run, rest, Fetches(d));
        ObservedConcat(s, run, rest, Forwards());
        run, k := run + rest, j + 1;
        assert [q[0]] + q[1..] == q && [q[0]] + q[1..][..j] == q[..j + 1];
        assert j < |q[1..]| ==> [q[0]] + q[1..][..j + 1] == q[..j + 2];
      } else {
        assert q[..0] == [] && q[..1] == [q[0]];
      }
    }
  }

  lemma NoSteps(s: Sys, d: nat)
    requires Inv(s)
    ensures After(s, []) == Some(s) && Observed(s, [], Forwards()) == [] && Observed(s, [], Fetches(d)) == []
  {
  }

  // ---- when nothing interrupts ----

  /** After the fetch has given its reference back, may the event still be sent? */
  predicate WithinLimit(events: map<int, Event>, e: int) {
    && e in events
    && (events[e].attr.Static? || (events[e].ref > 0 && RefValue(events[e].(ref := events[e].ref - 1)) < REF_LIMIT))
  }

  /** A fetch that nothing interrupts succeeds exactly when the agent's queue has room and the event
      is within the limit, and then only moves it. */
  lemma QuietFetch(s: Sys, d: nat)
    requires Inv(s) && InHandler(s) && d < |s.deferred| && s.deferred[d] != []
    ensures var r, p, e := FetchedAmid(s, d, []), s.main.epa, s.deferred[d][0];
            && p < |s.work| && |s.work| == |s.cap|
            && (r.1 == NoError <==> |s.work[p]| < s.cap[p] && WithinLimit(s.events, e))
            && (r.1 == NoReference <==> !WithinLimit(s.events, e))
            && r.0.work == (if r.1 == NoError then s.work[p := s.work[p] + [e]] else s.work)
            && (r.1 == NoError ==> r.0.events == s.events)
  {
    FetchSteps(s, d, []);
    var e := s.deferred[d][0];
    assert RefValue(Event(Static, 0)) < REF_LIMIT by { assert Or(0, 0x00ff) == 0x00ff; }
    assert EventOk(s, e);
  }

  /** With the agent's queue full, a fetch loses the event's place for good: it is freed unless
      something else refers to it, and it is in neither queue on its behalf any more. */
  lemma FullQueueDrops(s: Sys, d: nat)
    requires Inv(s) && InHandler(s) && d < |s.deferred| && s.deferred[d] != []
    requires |s.work[s.main.epa]| == s.cap[s.main.epa]
    ensures var r, e := FetchedAmid(s, d, []).0, s.deferred[d][0];
            && e in s.events && r.work == s.work && r.deferred == s.deferred[d := s.deferred[d][1..]]
            && (e !in r.events <==> s.events[e].attr.Dynamic? && Count(s, e) == 1 && e !in s.leaked)
  {
    var e := s.deferred[d][0];
    QuietFetch(s, d);
    FetchTakeIs(s, d);
    FetchTakeKeeps(s, d);
    OccursGet(s.deferred, d, e);
    FetchSendOutcome(Fetched(s, d));
  }

  /** Beyond the limit, a fetch loses the event's place as well, and the event stays. */
  lemma OutOfReferencesDrops(s: Sys, d: nat)
    requires Inv(s) && InHandler(s) && d < |s.deferred| && s.deferred[d] != []
             && !WithinLimit(s.events, s.deferred[d][0])
    ensures var r, e := FetchedAmid(s, d, []).0, s.deferred[d][0];
            && e in s.events && r.work == s.work && r.deferred == s.deferred[d := s.deferred[d][1..]]
            && e in r.events && r.events[e].ref == s.events[e].ref - 1
  {
    QuietFetch(s, d);
    FetchSteps(s, d, []);
  }

  /** Draining without interrupts moves the longest prefix that fits and is within the limit, in
      order, to the end of the agent's queue. The first event that does not is gone from the
      deferred queue all the same. */
  lemma {:induction false} QuietDrain(s: Sys, d: nat, i: nat) returns (k: nat)
    requires Inv(s) && InHandler(s) && d < |s.deferred|
    ensures s.main.epa < |s.work| && |s.work| == |s.cap| && k <= |s.deferred[d]|
    ensures var r, p, q := Drained(s, d, i, Quiet(), Quiet()), s.main.epa, s.deferred[d];
            && r.0.work == s.work[p := s.work[p] + q[..k]]
            && r.0.deferred == s.deferred[d := if k == |q| then [] else q[k + 1..]]
            && (forall j | 0 <= j < k :: WithinLimit(s.events, q[j])) && (k == 0 || |s.work[p]| + k <= s.cap[p])
            && (k < |q| ==> |s.work[p]| + k == s.cap[p] || !WithinLimit(s.events, q[k]))
            && r.1 == if k == |q| then NoError else if WithinLimit(s.events, q[k]) then NoResource else NoReference
    decreases |s.deferred[d]|
  {
    hide Inv, Next, FetchedAmid, WithinLimit, Amid;
    InvShape(s);
    k := 0;
    var p, q := s.main.epa, s.deferred[d];
    assert s.work[p] + q[..0] == s.work[p];
    if q != [] {
      QuietFetch(s, d);
      var (t, error) := FetchedAmid(s, d, []);
      assert Quiet()(i) == [] && Amid(t, []) == t by { NoInterrupts(t); }
      if error == NoError {
        var j := QuietDrain(t, d, i + 1);
        k := j + 1;
        assert (s.work[p] + [q[0]]) + q[1..][..j] == s.work[p] + q[..k];
        assert forall x | 0 <= x < j :: q[1..][x] == q[x + 1];
      } else {
        RoomOrFull(s, p);
      }
    }
  }

  lemma NoInterrupts(s: Sys)
    requires Inv(s)
    ensures Amid(s, []) == s
  {
  }

  lemma RoomOrFull(s: Sys, p: nat)
    requires Inv(s) && p < |s.work|
    ensures |s.work[p]| <= s.cap[p]
  {
    assert Thread(s, p);
  }

  /** A drain without interrupts succeeds exactly when all deferred events fit into the agent's
      queue and are within the limit. */
  lemma QuietDrainSucceedsIff(s: Sys, d: nat)
    requires Inv(s) && InHandler(s) && d < |s.deferred|
    ensures s.main.epa < |s.work| && |s.work| == |s.cap|
    ensures Drained(s, d, 0, Quiet(), Quiet()).1 == NoError
       <==> |s.work[s.main.epa]| + |s.deferred[d]| <= s.cap[s.main.epa]
            && forall e | e in s.deferred[d] :: WithinLimit(s.events, e)
  {
    hide Drained, WithinLimit;
    var k := QuietDrain(s, d, 0);
    RoomOrFull(s, s.main.epa);
    var q := s.deferred[d];
    if k < |q| { assert q[k] in q; }
  }
}

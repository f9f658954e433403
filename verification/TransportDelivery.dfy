/** What happens to the events that go through a queue, over any run of steps. */
module TransportDelivery {
  import opened Options
  import opened TransportProofs
  import opened TransportSpec

  // ---- what an observer of a run sees ----

  /** The events an observer notes at a step. */
  type Observer = (Sys, Step) -> seq<int>

  /** Everything the observer notes during a run, in order. */
  ghost function Observed(s: Sys, run: seq<Step>, note: Observer): seq<int>
    requires Inv(s) && After(s, run).Some?
    decreases |run|
  {
    if run == [] then []
    else
      StepKeeps(s, run[0]);
      note(s, run[0]) + Observed(Next(s, run[0]), run[1..], note)
  }

  lemma {:induction false} AfterConcat(s: Sys, a: seq<Step>, b: seq<Step>)
    requires Inv(s) && After(s, a).Some?
    ensures After(s, a + b) == After(After(s, a).value, b)
    decreases |a|
  {
    hide Inv, Enabled, Next;
    if a == [] {
      assert a + b == b;
    } else {
      StepKeeps(s, a[0]);
      assert (a + b)[0] == a[0] && (a + b)[1..] == a[1..] + b;
      AfterConcat(Next(s, a[0]), a[1..], b);
    }
  }

  lemma {:induction false} ObservedConcat(s: Sys, a: seq<Step>, b: seq<Step>, note: Observer)
    requires Inv(s) && After(s, a).Some? && After(After(s, a).value, b).Some?
    ensures After(s, a + b) == After(After(s, a).value, b)
    ensures Observed(s, a + b, note) == Observed(s, a, note) + Observed(After(s, a).value, b, note)
    decreases |a|
  {
    hide Inv, Enabled, Next;
    AfterConcat(s, a, b);
    if a == [] {
      assert a + b == b;
    } else {
      StepKeeps(s, a[0]);
      assert (a + b)[0] == a[0] && (a + b)[1..] == a[1..] + b;
      ObservedConcat(Next(s, a[0]), a[1..], b, note);
    }
  }

  // ---- working queues ----

  /** Is the event accepted for the agent: within the limit of references, and there is room? */
  predicate Accepting(s: Sys, p: nat, e: int)
    requires |s.work| == |s.cap|
  {
    p < |s.work| && e in s.events && RefValue(s.events[e]) < REF_LIMIT && |s.work[p]| < s.cap[p]
  }

  /** What a step puts into agent `p`'s queue, at either end. */
  ghost function Accepts(p: nat): Observer {
    (s: Sys, st: Step) =>
      if |s.work| != |s.cap| then []
      else match st
        case Send(q, e) => if q == p && Accepting(s, q, e) then [e] else []
        case SendAhead(q, e) => if q == p && Accepting(s, q, e) then [e] else []
        case FetchSend =>
          if s.hand.Some? && !s.main.Scheduling? && s.main.epa == p && Accepting(s, p, s.hand.value)
          then [s.hand.value] else []
        case _ => []
  }

  /** What a step takes out of agent `p`'s queue to dispatch it. */
  ghost function Dispatches(p: nat): Observer {
    (s: Sys, st: Step) => if st == Take(p) && p < |s.work| && |s.work[p]| > 0 then [s.work[p][0]] else []
  }

  lemma QueuesKept(s: Sys, st: Step)
    requires Inv(s) && Enabled(s, st) && !st.Send? && !st.FetchSend? && !st.Take? && !st.SendAhead?
    ensures Next(s, st).work == s.work
  {
    hide EventOk, Thread, NoRepeats, Occurs;
  }

  /** A step takes from the front of a queue and puts at its back, unless it sends ahead. */
  lemma StepDelivers(s: Sys, st: Step, p: nat)
    requires Inv(s) && Enabled(s, st) && p < |s.work|
    ensures |Next(s, st).work| == |s.work|
    ensures if st.SendAhead? then Accepts(p)(s, st) + s.work[p] == Next(s, st).work[p] && Dispatches(p)(s, st) == []
            else s.work[p] + Accepts(p)(s, st) == Dispatches(p)(s, st) + Next(s, st).work[p]
  {
    if st.Send? || st.SendAhead? {
      SendDelivers(s, st, p);
    } else if st.FetchSend? {
      ForwardDelivers(s, p);
    } else if st.Take? {
      TakeDelivers(s, st.p, p);
    } else {
      hide Inv, Enabled, Next;
      QueuesKept(s, st);
    }
  }

  lemma SendDelivers(s: Sys, st: Step, p: nat)
    requires Inv(s) && Enabled(s, st) && p < |s.work| && (st.Send? || st.SendAhead?)
    ensures |Next(s, st).work| == |s.work| && Dispatches(p)(s, st) == []
    ensures Next(s, st).work[p] ==
              if st.SendAhead? then Accepts(p)(s, st) + s.work[p] else s.work[p] + Accepts(p)(s, st)
  {
    hide EventOk, Thread, NoRepeats, Occurs, RefValue;
  }

  lemma ForwardDelivers(s: Sys, p: nat)
    requires Inv(s) && s.hand.Some? && p < |s.work|
    ensures |Next(s, FetchSend).work| == |s.work| && Dispatches(p)(s, FetchSend) == []
    ensures Next(s, FetchSend).work[p] == s.work[p] + Accepts(p)(s, FetchSend)
  {
    hide EventOk, Thread, NoRepeats, Occurs, RefValue;
    HandExists(s);
    var e, w := s.hand.value, s.work[p];
    assert Accepts(p)(s, FetchSend) == if s.main.epa == p && Accepting(s, p, e) then [e] else [];
    assert w + [] == w;
  }

  lemma TakeDelivers(s: Sys, q: nat, p: nat)
    requires Inv(s) && Enabled(s, Take(q)) && p < |s.work|
    ensures |Next(s, Take(q)).work| == |s.work| && Accepts(p)(s, Take(q)) == []
    ensures s.work[p] == Dispatches(p)(s, Take(q)) + Next(s, Take(q)).work[p]
  {
    hide EventOk, Thread, NoRepeats, Occurs, RefValue;
    TakeIsSafe(s, q);
  }

  lemma HandExists(s: Sys)
    requires Inv(s) && s.hand.Some?
    ensures s.hand.value in s.events && InHandler(s.(hand := None)) && s.main.epa < |s.work|
  {
    assert EventOk(s, s.hand.value);
  }

  /** First in, first out: over any run that sends nothing ahead to agent `p`, the events accepted
      for it are dispatched in the order of acceptance, none twice, and the rest is still queued. */
  lemma {:induction false} DeliveredInOrder(s: Sys, run: seq<Step>, p: nat)
    requires Inv(s) && After(s, run).Some? && p < |s.work|
    requires forall i | 0 <= i < |run| :: !(run[i].SendAhead? && run[i].p == p)
    ensures |After(s, run).value.work| == |s.work|
    ensures s.work[p] + Observed(s, run, Accepts(p)) == Observed(s, run, Dispatches(p)) + After(s, run).value.work[p]
    decreases |run|
  {
    hide Inv, Enabled, Next;
    if run != [] {
      var t := Next(s, run[0]);
      StepKeeps(s, run[0]);
      StepDelivers(s, run[0], p);
      DeliveredInOrder(t, run[1..], p);
      Regroup(s.work[p], Accepts(p)(s, run[0]), Observed(t, run[1..], Accepts(p)), Dispatches(p)(s, run[0]), t.work[p],
              Observed(t, run[1..], Dispatches(p)), After(s, run).value.work[p]);
    }
  }

  lemma Regroup(w: seq<int>, a: seq<int>, aa: seq<int>, d: seq<int>, w1: seq<int>, dd: seq<int>, w2: seq<int>)
    requires w + a == d + w1 && w1 + aa == dd + w2
    ensures w + (a + aa) == (d + dd) + w2
  {
    calc {
      w + (a + aa);
      (w + a) + aa;
      d + (w1 + aa);
      (d + dd) + w2;
    }
  }

  /** Over any run, sends ahead included, every event accepted for agent `p` is dispatched or still
      queued, as often as it was accepted: none is lost and none delivered twice. */
  lemma {:induction false} NoneLostNorRepeated(s: Sys, run: seq<Step>, p: nat)
    requires Inv(s) && After(s, run).Some? && p < |s.work|
    ensures |After(s, run).value.work| == |s.work|
    ensures multiset(s.work[p]) + multiset(Observed(s, run, Accepts(p)))
         == multiset(Observed(s, run, Dispatches(p))) + multiset(After(s, run).value.work[p])
    decreases |run|
  {
    hide Inv, Enabled, Next;
    if run != [] {
      var t := Next(s, run[0]);
      StepKeeps(s, run[0]);
      StepConserves(s, run[0], p);
      NoneLostNorRepeated(t, run[1..], p);
      RegroupBags(s.work[p], Accepts(p)(s, run[0]), Observed(t, run[1..], Accepts(p)), Dispatches(p)(s, run[0]),
                  t.work[p], Observed(t, run[1..], Dispatches(p)), After(s, run).value.work[p]);
    }
  }

  lemma RegroupBags(w: seq<int>, a: seq<int>, aa: seq<int>, d: seq<int>, w1: seq<int>, dd: seq<int>, w2: seq<int>)
    requires multiset(w) + multiset(a) == multiset(d) + multiset(w1)
    requires multiset(w1) + multiset(aa) == multiset(dd) + multiset(w2)
    ensures multiset(w) + multiset(a + aa) == multiset(d + dd) + multiset(w2)
  {
    assert multiset(a + aa) == multiset(a) + multiset(aa);
    assert multiset(d + dd) == multiset(d) + multiset(dd);
    forall x ensures (multiset(w) + multiset(a + aa))[x] == (multiset(d + dd) + multiset(w2))[x] {
      assert (multiset(w) + multiset(a))[x] == (multiset(d) + multiset(w1))[x];
      assert (multiset(w1) + multiset(aa))[x] == (multiset(dd) + multiset(w2))[x];
    }
  }

  lemma StepConserves(s: Sys, st: Step, p: nat)
    requires Inv(s) && Enabled(s, st) && p < |s.work|
    ensures |Next(s, st).work| == |s.work|
    ensures multiset(s.work[p]) + multiset(Accepts(p)(s, st))
            == multiset(Dispatches(p)(s, st)) + multiset(Next(s, st).work[p])
  {
    hide Inv, Enabled, Next;
    StepDelivers(s, st, p);
    var w, a, d, w1 := s.work[p], Accepts(p)(s, st), Dispatches(p)(s, st), Next(s, st).work[p];
    assert multiset(w + a) == multiset(w) + multiset(a) && multiset(a + w) == multiset(a) + multiset(w);
    assert multiset(d + w1) == multiset(d) + multiset(w1);
  }

  // ---- deferred queues ----

  /** What a step puts into deferred queue `d`. */
  ghost function Defers(d: nat): Observer {
    (s: Sys, st: Step) =>
      if st.Defer? && st.d == d && d < |s.deferred| == |s.dcap| && |s.deferred[d]| < s.dcap[d] then [st.e] else []
  }

  /** What a step takes out of deferred queue `d`. */
  ghost function Fetches(d: nat): Observer {
    (s: Sys, st: Step) =>
      if st == FetchTake(d) && d < |s.deferred| && |s.deferred[d]| > 0 then [s.deferred[d][0]] else []
  }

  lemma StepDefers(s: Sys, st: Step, d: nat)
    requires Inv(s) && Enabled(s, st) && d < |s.deferred|
    ensures |Next(s, st).deferred| == |s.deferred|
    ensures s.deferred[d] + Defers(d)(s, st) == Fetches(d)(s, st) + Next(s, st).deferred[d]
  {
    hide EventOk, Thread, NoRepeats, Occurs, RefValue;
    if st.Defer? || st.FetchTake? {
    } else {
      DeferredKept(s, st);
    }
  }

  lemma DeferredKept(s: Sys, st: Step)
    requires Inv(s) && Enabled(s, st) && !st.Defer? && !st.FetchTake?
    ensures Next(s, st).deferred == s.deferred
  {
    hide EventOk, Thread, NoRepeats, Occurs, RefValue;
  }

  /** Over any run, whatever interrupts do in it, deferred events are fetched in the order in which
      they were deferred, none twice, and the rest is still deferred. */
  lemma {:induction false} FetchedInOrder(s: Sys, run: seq<Step>, d: nat)
    requires Inv(s) && After(s, run).Some? && d < |s.deferred|
    ensures |After(s, run).value.deferred| == |s.deferred|
    ensures s.deferred[d] + Observed(s, run, Defers(d))
            == Observed(s, run, Fetches(d)) + After(s, run).value.deferred[d]
    decreases |run|
  {
    hide Inv, Enabled, Next;
    if run != [] {
      var t := Next(s, run[0]);
      StepKeeps(s, run[0]);
      StepDefers(s, run[0], d);
      FetchedInOrder(t, run[1..], d);
      Regroup(s.deferred[d], Defers(d)(s, run[0]), Observed(t, run[1..], Defers(d)),
              Fetches(d)(s, run[0]), t.deferred[d],
              Observed(t, run[1..], Fetches(d)), After(s, run).value.deferred[d]);
    }
  }
}

/** What every run of the event transport keeps. */
module TransportProofs {
  import opened Bits
  import opened Options
  import opened TransportSpec

  // ---- each step keeps the invariant ----

  lemma InitHasInv(s: Sys)
    requires Init(s)
    ensures Inv(s)
  {
    forall e ensures EventOk(s, e) {
      EmptyOccurs(s.work, e);
      EmptyOccurs(s.deferred, e);
    }
  }

  lemma {:induction false} EmptyOccurs(qs: seq<seq<int>>, e: int)
    requires forall i | 0 <= i < |qs| :: qs[i] == []
    ensures Occurs(qs, e) == 0
  {
    if |qs| > 0 { EmptyOccurs(qs[1..], e); }
  }

  lemma CreateKeeps(s: Sys, x: int)
    requires Inv(s) && x !in s.events && x !in s.freed
    ensures Inv(s.(events := s.events[x := Event(Dynamic, 0)], unsent := s.unsent + {x}))
  {
    var t := s.(events := s.events[x := Event(Dynamic, 0)], unsent := s.unsent + {x});
    forall e ensures EventOk(t, e) {
      assert EventOk(s, e) && EventOk(s, x);
    }
    forall p: nat | p < |t.work| ensures Thread(t, p) { assert Thread(s, p); }
  }

  /** An event may be destroyed at any time: it goes only when nothing refers to it. */
  lemma DestroyKeeps(s: Sys, x: int)
    requires Inv(s) && x in s.events && s.hand != Some(x) && !(s.main.Releasing? && s.main.ev == x)
    ensures Inv(Destroyed(s, x))
  {
    var t := Destroyed(s, x);
    forall e ensures EventOk(t, e) {
      assert EventOk(s, e) && EventOk(s, x);
    }
    forall p: nat | p < |t.work| ensures Thread(t, p) { assert Thread(s, p); }
  }

  /** One more queued event, one more reason for the agent's thread to run. */
  lemma QueuedThreads(s: Sys, p: nat, x: int, front: bool)
    requires Inv(s) && p < |s.work| && !s.stage[p].Off? && |s.work[p]| < s.cap[p]
    ensures var t := Queued(s, p, x, front); Shape(t) && forall q: nat | q < |t.work| :: Thread(t, q)
  {
    hide EventOk, NoRepeats;
    var t := Queued(s, p, x, front);
    forall q: nat | q < |t.work| ensures Thread(t, q) { assert Thread(s, q) && Thread(s, p); }
  }

  lemma QueuedEvent(s: Sys, p: nat, x: int, front: bool, e: int)
    requires Shape(s) && EventOk(s, e) && p < |s.work| && x in s.events
    requires x in s.unsent || s.events[x].attr.Static? || Held(s, x)
    ensures EventOk(Queued(RefUp(s, x), p, x, front), e)
  {
    hide Occurs, Shape;
    OccursPut(s.work, p, x, e);
  }

  lemma QueuedKeeps(s: Sys, p: nat, x: int, front: bool)
    requires Inv(s) && p < |s.work| && x in s.events && !s.stage[p].Off?
    requires x in s.unsent || s.events[x].attr.Static? || Held(s, x)
    requires |s.work[p]| < s.cap[p]
    ensures Inv(Queued(RefUp(s, x), p, x, front))
  {
    hide EventOk, Thread, Held;
    var t := Queued(RefUp(s, x), p, x, front);
    forall e ensures EventOk(t, e) { QueuedEvent(s, p, x, front, e); }
    QueuedThreads(s, p, x, front);
    forall q: nat | q < |t.work| ensures Thread(t, q) {
      SameThread(Queued(s, p, x, front), t, q);
    }
  }

  lemma SameThread(s: Sys, t: Sys, p: nat)
    requires |s.work| == |s.cap| == |s.ref| == |s.stage| && p < |s.work| && Thread(s, p)
    requires t.(events := s.events, unsent := s.unsent, freed := s.freed, leaked := s.leaked,
                deferred := s.deferred, hand := s.hand) == s
    ensures Thread(t, p)
  {
  }

  lemma LeakKeeps(s: Sys, x: int)
    requires Inv(s) && x in s.events && !s.events[x].attr.Static?
    ensures Inv(RefUp(s, x).(leaked := s.leaked + multiset{x}))
  {
    var t := RefUp(s, x).(leaked := s.leaked + multiset{x});
    forall e ensures EventOk(t, e) { assert EventOk(s, e); }
    forall p: nat | p < |t.work| ensures Thread(t, p) { assert Thread(s, p); }
  }

  lemma RegisterKeeps(s: Sys, p: nat)
    requires Inv(s) && p < |s.work| && s.stage[p].Off?
    ensures Inv(s.(stage := s.stage[p := Starting], ref := s.ref[p := s.ref[p] + 1], ready := s.ready + {p}))
  {
    var t := s.(stage := s.stage[p := Starting], ref := s.ref[p := s.ref[p] + 1], ready := s.ready + {p});
    forall e ensures EventOk(t, e) { assert EventOk(s, e); }
    forall q: nat | q < |t.work| ensures Thread(t, q) { assert Thread(s, q) && Thread(s, p); }
  }

  lemma InitBeginKeeps(s: Sys, p: nat)
    requires Inv(s) && s.main.Scheduling? && p < |s.work| && s.stage[p].Starting?
    ensures Inv(s.(main := Initialising(p)))
  {
    var t := s.(main := Initialising(p));
    forall e ensures EventOk(t, e) { assert EventOk(s, e); }
    forall q: nat | q < |t.work| ensures Thread(t, q) { assert Thread(s, q); }
  }

  lemma InitEndKeeps(s: Sys)
    requires Inv(s) && s.main.Initialising? && s.hand == None
    ensures s.ref[s.main.epa] > 0 && Inv(InitEnded(s, s.main.epa))
  {
    var p := s.main.epa;
    assert Thread(s, p);
    var t := InitEnded(s, p);
    forall e ensures EventOk(t, e) { assert EventOk(s, e); }
    forall q: nat | q < |t.work| ensures Thread(t, q) { assert Thread(s, q); }
  }

  /** Taking the front event turns its place in the queue into the dispatch reference. */
  lemma TakeKeeps(s: Sys, p: nat)
    requires Inv(s) && s.main.Scheduling? && p < |s.work| && s.stage[p].Running? && |s.work[p]| > 0
    ensures Inv(Taken(s, p))
  {
    var t := Taken(s, p);
    forall e ensures EventOk(t, e) {
      assert EventOk(s, e);
      OccursGet(s.work, p, e);
    }
    forall q: nat | q < |t.work| ensures Thread(t, q) { assert Thread(s, q); }
  }

  lemma HandlerEndKeeps(s: Sys)
    requires Inv(s) && s.main.Dispatching? && s.hand == None
    ensures s.main.ev in s.events && (s.events[s.main.ev].attr.Static? || s.events[s.main.ev].ref > 0)
    ensures Inv(RefDown(s, s.main.ev).(main := Releasing(s.main.epa, s.main.ev)))
  {
    assert EventOk(s, s.main.ev);
    var t := RefDown(s, s.main.ev).(main := Releasing(s.main.epa, s.main.ev));
    forall e ensures EventOk(t, e) { assert EventOk(s, e); }
    forall q: nat | q < |t.work| ensures Thread(t, q) { assert Thread(s, q); }
  }

  lemma FinishKeeps(s: Sys)
    requires Inv(s) && s.main.Releasing?
    ensures s.main.ev in s.events && s.ref[s.main.epa] > 0
    ensures Inv(Blocked(Destroyed(s, s.main.ev), s.main.epa).(main := Scheduling))
  {
    var p, x := s.main.epa, s.main.ev;
    assert Thread(s, p) && EventOk(s, x);
    var t := Blocked(Destroyed(s, x), p).(main := Scheduling);
    forall e ensures EventOk(t, e) { assert EventOk(s, e); }
    forall q: nat | q < |t.work| ensures Thread(t, q) { assert Thread(s, q); }
  }

  lemma DeferKeeps(s: Sys, d: nat, x: int)
    requires Inv(s) && d < |s.deferred| && Owns(s, x)
    ensures Inv(Deferred(s, d, x).0)
  {
    hide Occurs, NoRepeats;
    var t := Deferred(s, d, x).0;
    if t != s {
      forall e ensures EventOk(t, e) {
        assert EventOk(s, e) && EventOk(s, x);
        OccursPut(s.deferred, d, x, e);
      }
      forall q: nat | q < |t.work| ensures Thread(t, q) { assert Thread(s, q); }
    }
  }

  lemma FetchedEvent(s: Sys, d: nat, e: int)
    requires Shape(s) && InHandler(s) && d < |s.deferred| && |s.deferred[d]| > 0
    requires EventOk(s, e) && EventOk(s, s.deferred[d][0]) && s.deferred[d][0] in s.events
    requires s.events[s.deferred[d][0]].attr.Static? || s.events[s.deferred[d][0]].ref > 0
    requires Held(s, s.deferred[d][0])
    ensures EventOk(Fetched(s, d), e)
  {
    hide Occurs, Shape;
    OccursGet(s.deferred, d, e);
  }

  lemma FetchTakeKeeps(s: Sys, d: nat)
    requires Inv(s) && InHandler(s) && d < |s.deferred| && |s.deferred[d]| > 0
    ensures s.deferred[d][0] in s.events
    ensures s.events[s.deferred[d][0]].attr.Static? || s.events[s.deferred[d][0]].ref > 0
    ensures Inv(Fetched(s, d))
  {
    var x := s.deferred[d][0];
    QueuedIsCounted(s, s.deferred, d, x);
    OccursIn(s.deferred, d, x);
    assert Held(s, x);
    hide Occurs, NoRepeats, EventOk, Thread, Held, Count;
    var t := Fetched(s, d);
    forall e ensures EventOk(t, e) { FetchedEvent(s, d, e); }
    forall q: nat | q < |t.work| ensures Thread(t, q) { SameThread(s, t, q); }
  }

  /** The event in hand is somewhere else by now, destroyed, or referenced otherwise. */
  lemma LetGoKeeps(s: Sys)
    requires Inv(s) && s.hand.Some? && Count(s, s.hand.value) > 0
    ensures Inv(s.(hand := None))
  {
    var t := s.(hand := None);
    forall e ensures EventOk(t, e) { assert EventOk(s, e); }
    forall q: nat | q < |t.work| ensures Thread(t, q) { assert Thread(s, q); }
  }

  lemma DropKeeps(s: Sys)
    requires Inv(s) && s.hand.Some?
    ensures s.hand.value in s.events && Inv(Destroyed(s, s.hand.value).(hand := None))
  {
    assert EventOk(s, s.hand.value);
    var t := Destroyed(s, s.hand.value).(hand := None);
    forall e ensures EventOk(t, e) { assert EventOk(s, e); }
    forall q: nat | q < |t.work| ensures Thread(t, q) { assert Thread(s, q); }
  }

  lemma FetchSendKeeps(s: Sys)
    requires Inv(s) && s.hand.Some?
    ensures s.hand.value in s.events && Inv(Sent(s, s.main.epa, s.hand.value).0.(hand := None))
  {
    var x, p := s.hand.value, s.main.epa;
    assert EventOk(s, x) && Held(s, x);
    var t := Sent(s, p, x).0;
    if t.work != s.work {
      QueuedKeeps(s, p, x, false);
      OccursPut(s.work, p, x, x);
      LetGoKeeps(t);
    } else {
      OrZero(0, 0);
      DropKeeps(s);
    }
  }

  lemma LockKeeps(s: Sys, x: int)
    requires Inv(s) && x in s.events
    ensures Inv(Marked(s, x, Reserved))
  {
    var t := Marked(s, x, Reserved);
    forall e ensures EventOk(t, e) { assert EventOk(s, e); }
    forall q: nat | q < |t.work| ensures Thread(t, q) { assert Thread(s, q); }
  }

  lemma UnlockKeeps(s: Sys, x: int)
    requires Inv(s) && x in s.events && UnlockSafe(s, x)
    ensures Inv(Unlocked(s, x))
  {
    hide Occurs;
    var t := Unlocked(s, x);
    forall e ensures EventOk(t, e) { assert EventOk(s, e) && EventOk(s, x); }
    forall q: nat | q < |t.work| ensures Thread(t, q) { assert Thread(s, q); }
  }

  /** An unlock keeps the invariant exactly when its caller's guard holds: otherwise it frees an
      event that the main loop has out of its queue. */
  lemma UnlockSafeIff(s: Sys, x: int)
    requires Inv(s) && x in s.events
    ensures Inv(Unlocked(s, x)) <==> UnlockSafe(s, x)
  {
    if UnlockSafe(s, x) {
      UnlockKeeps(s, x);
    } else {
      assert !EventOk(Unlocked(s, x), x);
    }
  }

  lemma SendKeeps(s: Sys, p: nat, x: int)
    requires Inv(s) && MaySend(s, p, x)
    ensures Inv(Sent(s, p, x).0) && Inv(SentAhead(s, p, x).0)
  {
    assert EventOk(s, x);
    if |s.work[p]| < s.cap[p] {
      QueuedKeeps(s, p, x, false);
      QueuedKeeps(s, p, x, true);
    } else {
      if s.events[x] == Event(Dynamic, 0) { DestroyKeeps(s, x); }
      if !s.events[x].attr.Static? { LeakKeeps(s, x); }
    }
  }

  lemma StepKeeps(s: Sys, st: Step)
    requires Inv(s) && Enabled(s, st)
    ensures Inv(Next(s, st))
  {
    hide Inv;
    match st
    case Create(e) => CreateKeeps(s, e);
    case Destroy(e) => OwnedDestroyKeeps(s, e);
    case Send(p, e) => SendKeeps(s, p, e);
    case SendAhead(p, e) => SendKeeps(s, p, e);
    case Register(p) => RegisterKeeps(s, p);
    case InitBegin(p) => InitBeginKeeps(s, p);
    case InitEnd => InitEndKeeps(s);
    case Take(p) => TakeIsSafe(s, p); TakeKeeps(s, p);
    case HandlerEnd => HandlerEndKeeps(s);
    case Finish => FinishKeeps(s);
    case Defer(d, e) => DeferKeeps(s, d, e);
    case FetchTake(d) => FetchTakeKeeps(s, d);
    case FetchSend => FetchSendKeeps(s);
    case Lock(e) => LockKeeps(s, e);
    case Unlock(e) => UnlockKeeps(s, e);
  }

  lemma OwnedDestroyKeeps(s: Sys, x: int)
    requires Inv(s) && Owns(s, x)
    ensures Inv(Destroyed(s, x))
  {
    assert EventOk(s, x);
    if s.events[x] == Event(Dynamic, 0) { DestroyKeeps(s, x); }
  }

  lemma InvShape(s: Sys)
    requires Inv(s)
    ensures Shape(s)
  {
  }

  // ---- runs ----

  /** The state after a run of steps, or none if a step is not enabled. */
  ghost function After(s: Sys, run: seq<Step>): (r: Option<Sys>)
    requires Inv(s)
    ensures r.Some? ==> Inv(r.value)
    decreases |run|
  {
    if run == [] then Some(s)
    else if !Enabled(s, run[0]) then None
    else
      StepKeeps(s, run[0]);
      After(Next(s, run[0]), run[1..])
  }

  /** How many steps of the run sent a dynamic event ahead to a full queue. */
  ghost function Losses(s: Sys, run: seq<Step>): nat
    requires Inv(s) && After(s, run).Some?
    decreases |run|
  {
    if run == [] then 0
    else
      StepKeeps(s, run[0]);
      (if run[0].SendAhead? && LosesReference(s, run[0].p, run[0].e) then 1 else 0)
      + Losses(Next(s, run[0]), run[1..])
  }

  /** Every dynamic event's counter is its number of places in queues, plus one while dispatched. */
  ghost predicate Exact(s: Sys) {
    forall e | e in s.events && !s.events[e].attr.Static? :: s.events[e].ref == Count(s, e)
  }

  /** The invariant holds after every run from start-up, whatever main loop and interrupts do. */
  lemma RunKeeps(s: Sys, run: seq<Step>)
    requires Init(s)
    ensures Inv(s) && (After(s, run).Some? ==> Inv(After(s, run).value))
  {
    InitHasInv(s);
  }

  lemma StepLeaks(s: Sys, st: Step)
    requires Inv(s) && Enabled(s, st)
    ensures Next(s, st).leaked ==
              if st.SendAhead? && LosesReference(s, st.p, st.e) then s.leaked + multiset{st.e} else s.leaked
  {
  }

  lemma {:induction false} RunLeaks(s: Sys, run: seq<Step>)
    requires Inv(s) && After(s, run).Some?
    ensures |After(s, run).value.leaked| == |s.leaked| + Losses(s, run)
    decreases |run|
  {
    if run != [] {
      StepKeeps(s, run[0]);
      StepLeaks(s, run[0]);
      RunLeaks(Next(s, run[0]), run[1..]);
    }
  }

  lemma ExactUnlessLeaked(s: Sys)
    requires Inv(s)
    ensures Exact(s) <==> s.leaked == multiset{}
  {
    assert (forall e :: s.leaked[e] == 0) ==> s.leaked == multiset{};
    if s.leaked == multiset{} {
      forall e | e in s.events && !s.events[e].attr.Static? ensures s.events[e].ref == Count(s, e) {
        assert EventOk(s, e);
      }
    } else {
      var e :| e in s.leaked;
      assert EventOk(s, e);
    }
  }

  /** The counters are exact after a run if and only if it never sent a dynamic event ahead to a
      full queue: that branch alone breaks them, and nothing mends them afterwards. */
  lemma CountersExactIff(s: Sys, run: seq<Step>)
    requires Init(s) && Inv(s) && After(s, run).Some?
    ensures Exact(After(s, run).value) <==> Losses(s, run) == 0
  {
    RunLeaks(s, run);
    ExactUnlessLeaked(After(s, run).value);
  }

  // ---- freeing ----

  /** A freed event was freed once, and nothing in the kernel refers to it any more. */
  lemma FreedOnce(s: Sys, e: int)
    requires Inv(s) && e in s.freed
    ensures multiset(s.freed)[e] == 1 && e !in s.events && !Held(s, e)
    ensures forall i | 0 <= i < |s.work| :: e !in s.work[i]
    ensures forall d | 0 <= d < |s.deferred| :: e !in s.deferred[d]
  {
    assert EventOk(s, e);
    OnlyOne(s.freed, e);
    OccursNowhere(s.work, e);
    OccursNowhere(s.deferred, e);
  }

  lemma {:induction false} OnlyOne(f: seq<int>, e: int)
    requires NoRepeats(f) && e in f
    ensures multiset(f)[e] == 1
  {
    var i :| 0 <= i < |f| && f[i] == e;
    assert f == f[..i] + [e] + f[i + 1..];
    assert e !in f[..i] && e !in f[i + 1..];
  }

  lemma FreesNext(s: Sys, st: Step, e: int)
    requires Inv(s) && Enabled(s, st) && e in s.events && e !in Next(s, st).events
    ensures s.events[e].attr.Dynamic? || (st == Unlock(e) && s.events[e].attr.Reserved?)
    ensures Next(s, st).freed == s.freed + [e]
  {
    hide EventOk, Thread, NoRepeats, Occurs, RefValue;
    if !Frees(st) { FreesNothing(s, st); }
  }

  /** The steps that call `nevent_destroy_i` or `nevent_unlock`. */
  predicate Frees(st: Step) {
    st.Destroy? || st.Send? || st.SendAhead? || st.Unlock? || st.Finish? || st.FetchSend?
  }

  lemma FreesNothing(s: Sys, st: Step)
    requires Inv(s) && Enabled(s, st) && !Frees(st)
    ensures s.events.Keys <= Next(s, st).events.Keys
  {
    hide EventOk, Thread, NoRepeats, Occurs, RefValue;
  }

  /** A step that frees an event frees a dynamic one (an unlock makes it so first) which is left
      in no queue, not being dispatched, and without a lost reference. */
  lemma FreesOnlyUnused(s: Sys, st: Step, e: int)
    requires Inv(s) && Enabled(s, st) && e in s.events && e !in Next(s, st).events
    ensures s.events[e].attr.Dynamic? || (st == Unlock(e) && s.events[e].attr.Reserved?)
    ensures Next(s, st).freed == s.freed + [e] && Count(Next(s, st), e) == 0 && e !in Next(s, st).leaked
  {
    FreesNext(s, st, e);
    StepKeeps(s, st);
    assert EventOk(Next(s, st), e);
  }

  /** A dispatched event is freed at the end of its dispatch exactly when it is dynamic, in no
      queue, and has lost no reference. */
  lemma FinishFreesIff(s: Sys)
    requires Inv(s) && s.main.Releasing?
    ensures s.main.ev in s.events
    ensures s.main.ev !in Next(s, Finish).events
       <==> s.events[s.main.ev].attr.Dynamic? && Count(s, s.main.ev) == 0 && s.main.ev !in s.leaked
  {
    assert EventOk(s, s.main.ev);
  }

  /** Nothing lingers: a dynamic event that exists is still to be used by someone, unless a
      failed send ahead has lost a reference to it. */
  lemma NothingLingers(s: Sys, e: int)
    requires Inv(s) && e in s.events && s.events[e].attr.Dynamic? && e !in s.leaked
    ensures e in s.unsent || s.hand == Some(e)
         || ((s.main.Dispatching? || s.main.Releasing?) && s.main.ev == e)
         || Occurs(s.work, e) > 0 || Occurs(s.deferred, e) > 0
  {
    assert EventOk(s, e);
  }

  /** An event that has lost a reference is never freed. */
  lemma {:induction false} LeakIsForever(s: Sys, run: seq<Step>, e: int)
    requires Inv(s) && After(s, run).Some? && e in s.leaked
    ensures e in After(s, run).value.events && After(s, run).value.events[e].ref > 0
    decreases |run|
  {
    if run == [] {
      assert EventOk(s, e);
    } else {
      StepKeeps(s, run[0]);
      StepLeaks(s, run[0]);
      LeakIsForever(Next(s, run[0]), run[1..], e);
    }
  }

  /** A full queue and a fresh event: the counter is wrong from then on. */
  lemma AheadToFullQueue(s: Sys, p: nat, e: int)
    requires Inv(s) && MaySend(s, p, e) && e in s.unsent && |s.work[p]| == s.cap[p] && s.events[e] == Event(Dynamic, 0)
    ensures var t := Next(s, SendAhead(p, e));
            e in t.events && t.events[e].ref == 1 && Count(t, e) == 0 && !Held(t, e)
  {
    assert EventOk(s, e);
    OrZero(0, 0);
  }

  /** A static event is never refused for its count, and no send raises a count above the
      limit. */
  lemma SendWithinLimit(s: Sys, p: nat, e: int)
    requires Inv(s) && MaySend(s, p, e)
    ensures var (t, error) := Sent(s, p, e);
            && (s.events[e].attr.Static? ==> error != NoReference)
            && (error == NoReference ==> t == s)
            && (error == NoError ==> e in t.events && t.events[e].ref <= REF_LIMIT)
  {
    assert EventOk(s, e);
    OrAtLeast(s.events[e].ref, 0x00ff);
    OrAtLeast(s.events[e].ref, 0);
    OrAtLeast(s.events[e].ref, 0x0f00);
  }

  // ---- threads ----

  /** A registered agent with queued events is ready, and its thread count never exceeds its
      queue by more than one. */
  lemma QueuedMeansReady(s: Sys, p: nat)
    requires Inv(s) && p < |s.work|
    ensures |s.work[p]| > 0 ==> p in s.ready && !s.stage[p].Off?
    ensures s.ref[p] <= s.cap[p] + 1
  {
    assert Thread(s, p);
  }

  /** An idle kernel has no work: with nothing ready, every queue is empty and no start is due. */
  lemma IdleIsEmpty(s: Sys)
    requires Inv(s) && s.ready == {}
    ensures forall p | 0 <= p < |s.work| :: s.work[p] == [] && !s.stage[p].Starting?
    ensures s.main.Scheduling?
  {
    forall p | 0 <= p < |s.work|
      ensures s.work[p] == [] && !s.stage[p].Starting? && (s.main.Scheduling? || s.main.epa != p)
    {
      assert Thread(s, p);
    }
  }
}

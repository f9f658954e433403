/** `epa.c`, `event.c` and the counters of `event.h`, statement by statement, against the steps. */
module Transport {
  import opened Bits
  import opened Options
  import opened TransportFetch
  import opened TransportProofs
  import opened TransportSpec
  import Spec = TransportSpec

  class Kernel {
    var events: map<int, Event>
    var work: seq<seq<int>>
    var cap: seq<nat>
    var ref: seq<nat>
    var ready: set<nat>
    var stage: seq<Stage>
    var deferred: seq<seq<int>>
    var dcap: seq<nat>
    var main: Main
    // a local variable of the fetching functions
    var hand: Option<int>
    // history
    var unsent: set<int>
    var lost: seq<int>
    var leaked: multiset<int>

    function State(): Sys
      reads this
    {
      Sys(events, work, cap, ref, ready, stage, deferred, dcap, main, hand, unsent, lost, leaked)
    }

    ghost predicate Valid()
      reads this
    {
      Inv(State())
    }

    /** Start-up: static events and the given queue sizes; no agent is registered yet. */
    constructor (statics: set<int>, cap: seq<nat>, dcap: seq<nat>)
      ensures Init(State()) && Valid()
      ensures State().cap == cap && State().dcap == dcap && events.Keys == statics
    {
      events := map e | e in statics :: Event(Static, 0);
      work, this.cap := seq(|cap|, i => []), cap;
      ref, ready, stage := seq(|cap|, i => 0), {}, seq(|cap|, i => Off);
      deferred, this.dcap := seq(|dcap|, i => []), dcap;
      main, hand, unsent, lost, leaked := Scheduling, None, {}, [], multiset{};
      new;
      InitHasInv(State());
    }

    // ---- event.h, event.c ----

    method RefUp(e: int)
      requires e in events
      modifies this`events
      ensures State() == Spec.RefUp(old(State()), e)
    {
      if !events[e].attr.Static? {
        events := events[e := events[e].(ref := events[e].ref + 1)];
      }
    }

    method RefDown(e: int)
      requires e in events && (events[e].attr.Static? || events[e].ref > 0)
      modifies this`events
      ensures State() == Spec.RefDown(old(State()), e)
    {
      if !events[e].attr.Static? {
        events := events[e := events[e].(ref := events[e].ref - 1)];
      }
    }

    /** `nmem_free_i` on an event. */
    method FreeEvent(e: int)
      requires e in events
      modifies this`events, this`lost, this`unsent
      ensures State() == Freed(old(State()), e)
    {
      events := events - {e};
      lost, unsent := lost + [e], unsent - {e};
    }

    method DestroyEvent(e: int)
      requires e in events
      modifies this`events, this`lost, this`unsent
      ensures State() == Destroyed(old(State()), e)
    {
      RefValueZero(events[e]);
      if RefValue(events[e]) == 0 {
        FreeEvent(e);
      }
    }

    /** `event_init` on storage that the allocator has just handed out. */
    method CreateEvent(e: int)
      requires Valid() && Enabled(State(), Create(e))
      modifies this
      ensures Valid() && State() == Next(old(State()), Create(e))
    {
      StepKeeps(State(), Create(e));
      events := events[e := Event(Dynamic, 0)];
      unsent := unsent + {e};
    }

    /** `nevent_destroy`, called by whoever may still use the event. */
    method Discard(e: int)
      requires Valid() && Enabled(State(), Destroy(e))
      modifies this
      ensures Valid() && State() == Next(old(State()), Destroy(e))
    {
      StepKeeps(State(), Destroy(e));
      DestroyEvent(e);
    }

    method LockEvent(e: int)
      requires Valid() && Enabled(State(), Lock(e))
      modifies this
      ensures Valid() && State() == Next(old(State()), Lock(e))
    {
      StepKeeps(State(), Lock(e));
      if !events[e].attr.Static? {
        events := events[e := events[e].(attr := Reserved)];
      }
    }

    method UnlockEvent(e: int)
      requires Valid() && Enabled(State(), Unlock(e))
      modifies this
      ensures Valid() && State() == Next(old(State()), Unlock(e))
    {
      StepKeeps(State(), Unlock(e));
      if !events[e].attr.Static? {
        events := events[e := events[e].(attr := Dynamic)];
        if events[e].ref == 0 {
          FreeEvent(e);
        }
      }
    }

    // ---- sched.c, as far as an agent sees it ----

    method ThreadInsert(p: nat)
      requires p < |ref| && (ref[p] > 0 ==> p in ready)
      modifies this`ref, this`ready
      ensures ref == old(ref)[p := old(ref)[p] + 1] && ready == old(ready) + {p}
    {
      if ref[p] == 0 {
        ready := ready + {p};
      }
      ref := ref[p := ref[p] + 1];
    }

    method ThreadRemove(p: nat)
      requires p < |ref| && ref[p] > 0
      modifies this`ref, this`ready
      ensures State() == Blocked(old(State()), p)
    {
      ref := ref[p := ref[p] - 1];
      if ref[p] == 0 {
        ready := ready - {p};
      }
    }

    // ---- epa.c ----

    method Register(p: nat)
      requires Valid() && Enabled(State(), Step.Register(p))
      modifies this
      ensures Valid() && State() == Next(old(State()), Step.Register(p))
    {
      StepKeeps(State(), Step.Register(p));
      assert Thread(State(), p);
      stage := stage[p := Starting];
      ThreadInsert(p);
    }

    /** `epa_init_i` up to the dispatch of NSM_INIT. */
    method BeginInit(p: nat)
      requires Valid() && Enabled(State(), InitBegin(p))
      modifies this
      ensures Valid() && State() == Next(old(State()), InitBegin(p))
    {
      StepKeeps(State(), InitBegin(p));
      main := Initialising(p);
    }

    /** The rest of `epa_init_i`. */
    method EndInit()
      requires Valid() && Enabled(State(), InitEnd)
      modifies this
      ensures Valid() && State() == Next(old(State()), InitEnd)
    {
      StepKeeps(State(), InitEnd);
      InitEndKeeps(State());
      var p := main.epa;
      ThreadRemove(p);
      stage := stage[p := Running];
      main := Scheduling;
    }

    /** `epa_dispatch_i` up to the release of the lock: the queue is never empty here. */
    method TakeEvent(p: nat) returns (event: int)
      requires Valid() && Enabled(State(), Take(p))
      modifies this
      ensures Valid() && State() == Next(old(State()), Take(p))
      ensures event in events && [event] + work[p] == old(work[p])
    {
      StepKeeps(State(), Take(p));
      TakeIsSafe(State(), p);
      event := work[p][0];
      work := work[p := work[p][1..]];
      main := Dispatching(p, event);
      assert EventOk(State(), event);
    }

    /** The state machine has returned: `nevent_ref_down`, still without the lock. */
    method HandlerReturned()
      requires Valid() && Enabled(State(), HandlerEnd)
      modifies this
      ensures Valid() && State() == Next(old(State()), HandlerEnd)
    {
      StepKeeps(State(), HandlerEnd);
      HandlerEndKeeps(State());
      RefDown(main.ev);
      main := Releasing(main.epa, main.ev);
    }

    /** The rest of `epa_dispatch_i`. */
    method FinishDispatch()
      requires Valid() && Enabled(State(), Finish)
      modifies this
      ensures Valid() && State() == Next(old(State()), Finish)
    {
      StepKeeps(State(), Finish);
      FinishKeeps(State());
      var p := main.epa;
      DestroyEvent(main.ev);
      ThreadRemove(p);
      main := Scheduling;
    }

    method SendEvent(p: nat, e: int) returns (error: Error)
      requires |work| == |ref| == |cap| && p < |work| && e in events
      requires ref[p] > 0 ==> p in ready
      modifies this`events, this`work, this`ref, this`ready, this`unsent, this`lost
      ensures (State(), error) == Sent(old(State()), p, e)
    {
      if RefValue(events[e]) < REF_LIMIT {
        RefUp(e);
        if |work[p]| < cap[p] {
          work := work[p := work[p] + [e]];
          ThreadInsert(p);
          unsent := unsent - {e};
          error := NoError;
        } else {
          RefDown(e);
          assert events == old(events);
          DestroyEvent(e);
          error := NoResource;
        }
      } else {
        error := NoReference;
      }
    }

    /** `nepa_send_event_ahead_i`: its full-queue branch calls destroy without the ref-down. */
    method SendEventAhead(p: nat, e: int) returns (error: Error)
      requires |work| == |ref| == |cap| && p < |work| && e in events
      requires ref[p] > 0 ==> p in ready
      modifies this`events, this`work, this`ref, this`ready, this`unsent, this`lost, this`leaked
      ensures (State(), error) == SentAhead(old(State()), p, e)
    {
      if RefValue(events[e]) < REF_LIMIT {
        RefUp(e);
        if |work[p]| < cap[p] {
          work := work[p := [e] + work[p]];
          ThreadInsert(p);
          unsent := unsent - {e};
          error := NoError;
        } else {
          DestroyEvent(e);
          if !events[e].attr.Static? { leaked := leaked + multiset{e}; }
          error := NoResource;
        }
      } else {
        error := NoReference;
      }
    }

    /** A send by a caller who owns the event, from the main loop or an interrupt. */
    method Post(p: nat, e: int, ahead: bool) returns (error: Error)
      requires Valid() && MaySend(State(), p, e)
      modifies this
      ensures Valid()
      ensures State() == Next(old(State()), if ahead then SendAhead(p, e) else Send(p, e))
      ensures error == NoError <==> |work[p]| == old(|work[p]|) + 1
      ensures error == NoError ==> p in ready && work[p] == if ahead then [e] + old(work[p]) else old(work[p]) + [e]
    {
      StepKeeps(State(), if ahead then SendAhead(p, e) else Send(p, e));
      assert Thread(State(), p);
      if ahead { error := SendEventAhead(p, e); } else { error := SendEvent(p, e); }
    }

    method DeferEvent(d: nat, e: int) returns (error: Error)
      requires Valid() && Enabled(State(), Defer(d, e))
      modifies this
      ensures Valid() && State() == Next(old(State()), Defer(d, e))
      ensures error == if |old(deferred[d])| < dcap[d] then NoError else NoResource
      ensures deferred[d] == if error == NoError then old(deferred[d]) + [e] else old(deferred[d])
    {
      hide EventOk, NoRepeats, Thread, Occurs;
      StepKeeps(State(), Defer(d, e));
      error := NoResource;
      if |deferred[d]| < dcap[d] {
        RefUp(e);
        deferred := deferred[d := deferred[d] + [e]];
        unsent := unsent - {e};
        error := NoError;
      }
    }

    // ---- interrupts ----

    /** One step of an interrupt handler, if it is one it can take now. */
    method Interrupt(st: Step)
      requires Valid()
      modifies this
      ensures Valid() && State() == Interrupted(old(State()), st)
    {
      InvShape(State());
      if Enabled(State(), st) {
        match st
        case Create(e) => CreateEvent(e);
        case Destroy(e) => Discard(e);
        case Send(p, e) => var error := Post(p, e, false);
        case SendAhead(p, e) => var error := Post(p, e, true);
        case Lock(e) => LockEvent(e);
        case Unlock(e) => UnlockEvent(e);
        case _ =>
      }
    }

    /** Interrupts between two lock sections. Which ones come is up to the environment. */
    method HandleInterrupts(steps: seq<Step>)
      requires Valid()
      modifies this
      ensures Valid() && State() == Amid(old(State()), steps)
    {
      hide Inv, Interrupted;
      var i := 0;
      assert steps[0..] == steps;
      while i < |steps|
        invariant 0 <= i <= |steps| && Valid()
        invariant Amid(old(State()), steps) == Amid(State(), steps[i..])
      {
        assert steps[i..][0] == steps[i] && steps[i..][1..] == steps[i + 1..];
        Interrupt(steps[i]);
        i := i + 1;
      }
    }

    // ---- epa.c: deferred events ----

    /** `nepa_defer_fetch_one`; `between` is what interrupts do before the send takes the lock. */
    method FetchOne(d: nat, between: seq<Step>) returns (error: Error)
      requires Valid() && InHandler(State()) && d < |deferred|
      modifies this
      ensures Valid() && (State(), error) == FetchedAmid(old(State()), d, between)
    {
      hide Inv, FetchedAmid, Sent;
      error := NoError;
      if |deferred[d]| > 0 {
        FetchSteps(State(), d, between);
        var event := deferred[d][0];
        deferred := deferred[d := deferred[d][1..]];
        RefDown(event);
        hand := Some(event);
        HandleInterrupts(between);
        error := SendEvent(main.epa, event);
        hand := None;
      } else {
        NothingToFetch(State(), d, between);
      }
    }

    /** The loop of `nepa_defer_fetch_all`; in its i-th pass interrupts do `between(i)` before the
        send takes the lock and `after(i)` after the send. */
    method FetchAll(d: nat, between: Interrupts, after: Interrupts) returns (error: Error)
      requires Valid() && InHandler(State()) && d < |deferred|
      modifies this
      ensures Valid() && (State(), error) == Drained(old(State()), d, 0, between, after)
    {
      hide Inv, FetchedAmid, Amid;
      error := NoError;
      var i := 0;
      while error == NoError && |deferred[d]| > 0
        invariant Valid() && InHandler(State()) && d < |deferred|
        invariant Drained(old(State()), d, 0, between, after) ==
                    if error == NoError then Drained(State(), d, i, between, after) else (State(), error)
        decreases error == NoError, |deferred[d]|
      {
        error := FetchOne(d, between(i));
        HandleInterrupts(after(i));
        i := i + 1;
      }
    }
  }
}

/** What each step of the event transport does, told without the functions that define the steps, and
    that the main loop's work can be completed. */
module TransportEffects {
  import opened Bits
  import opened Options
  import opened TransportDelivery
  import opened TransportProofs
  import opened TransportSpec

  // ---- the reference value ----

  /** The value of a reserved event, digit by digit: bits 8 to 11 are set. */
  lemma ReservedValue(r: nat)
    ensures Or(r, 0x0f00) == r % 256 + 256 * 15 + 4096 * (r / 4096)
  {
    var l8, h8, l12, h12 := Low(8, r), High(8, r), Low(12, r), High(12, r);
    assert r == l8 + 256 * h8 && l8 < 256 by { LowHigh(8, r); ShlValues(h8); assert Pow2(8) == 256; }
    assert r == l12 + 4096 * h12 && l12 < 4096 by { LowHigh(12, r); ShlValues(h12); assert Pow2(12) == 4096; }
    assert Or(h8, 15) == 15 + 16 * h12 by {
      assert Pow2(4) - 1 == 15;
      OrOnes(4, h8);
      HighHigh(8, 4, r);
      ShlValues(h12);
    }
    assert Or(r, 0x0f00) == l8 + 256 * (15 + 16 * h12) by {
      ShlValues(15);
      OrShifted(8, r, 15);
      ShlValues(Or(h8, 15));
    }
    Digits(r, l8, h8, l12, h12);
  }

  lemma Digits(r: nat, l8: nat, h8: nat, l12: nat, h12: nat)
    requires r == l8 + 256 * h8 && l8 < 256 && r == l12 + 4096 * h12 && l12 < 4096
    ensures r % 256 == l8 && r / 4096 == h12
  {
  }

  lemma ShlValues(g: nat)
    ensures Shl(4, g) == 16 * g && Shl(8, g) == 256 * g && Shl(12, g) == 4096 * g
  {
    assert Shl(1, g) == 2 * g;
    assert Shl(2, g) == 2 * Shl(1, g) && Shl(3, g) == 2 * Shl(2, g) && Shl(4, g) == 2 * Shl(3, g);
    assert Shl(5, g) == 2 * Shl(4, g) && Shl(6, g) == 2 * Shl(5, g) && Shl(7, g) == 2 * Shl(6, g);
    assert Shl(8, g) == 2 * Shl(7, g) && Shl(9, g) == 2 * Shl(8, g) && Shl(10, g) == 2 * Shl(9, g);
    assert Shl(11, g) == 2 * Shl(10, g) && Shl(12, g) == 2 * Shl(11, g);
  }

  /** May one more reference be taken? Told from attribute and count alone. */
  predicate Referable(e: Event) {
    match e.attr
    case Static => true
    case Dynamic => e.ref < 65535
    case Reserved => e.ref / 4096 < 15 || (e.ref / 4096 == 15 && e.ref % 256 < 255)
  }

  lemma ReferableIff(e: Event)
    requires e.attr.Static? ==> e.ref == 0
    ensures RefValue(e) < REF_LIMIT <==> Referable(e)
  {
    if e.attr.Reserved? { ReservedValue(e.ref); }
    assert Or(0, 0x00ff) == 0x00ff;
  }

  // ---- sending ----

  /** One reference more, unless the event is static. */
  function Referenced(e: Event): Event {
    Event(e.attr, if e.attr.Static? then 0 else e.ref + 1)
  }

  /** Event `e` has come into agent `p`'s queue, now `q`: it is referenced, no longer fresh, and the
      thread has one more reason to run and is ready. Nothing else has happened. */
  ghost predicate HasCome(s: Sys, t: Sys, p: nat, e: int, q: seq<int>) {
    && p < |s.work| && p < |s.ref| && e in s.events
    && t.work == s.work[p := q] && t.ref == s.ref[p := s.ref[p] + 1] && t.ready == s.ready + {p}
    && t.events == s.events[e := Referenced(s.events[e])] && t.unsent == s.unsent - {e}
    && t == s.(work := t.work, ref := t.ref, ready := t.ready, events := t.events, unsent := t.unsent)
  }

  /** Event `e` is freed and nothing else has happened. */
  ghost predicate OnlyFreed(s: Sys, e: int, t: Sys) {
    && t.events == s.events - {e} && t.freed == s.freed + [e] && t.unsent == s.unsent - {e}
    && t == s.(events := t.events, freed := t.freed, unsent := t.unsent)
  }

  /** The whole effect of a send by an owner. It is accepted if and only if one more reference may be
      taken and the queue has room. For lack of room the event is freed if nobody refers to it. Beyond
      the limit nothing happens. */
  lemma SendEffect(s: Sys, p: nat, e: int)
    requires Inv(s) && MaySend(s, p, e)
    ensures Enabled(s, Send(p, e))
    ensures var t, error := Next(s, Send(p, e)), Sent(s, p, e).1;
            if !Referable(s.events[e]) then error == NoReference && t == s
            else if |s.work[p]| < s.cap[p] then error == NoError && HasCome(s, t, p, e, s.work[p] + [e])
            else error == NoResource && if s.events[e] == Event(Dynamic, 0) then OnlyFreed(s, e, t) else t == s
  {
    assert EventOk(s, e);
    ReferableIff(s.events[e]);
  }

  /** The same for a send ahead, which differs in the end of the queue and, for lack of room, in
      keeping the reference. */
  lemma SendAheadEffect(s: Sys, p: nat, e: int)
    requires Inv(s) && MaySend(s, p, e)
    ensures Enabled(s, SendAhead(p, e))
    ensures var t, error := Next(s, SendAhead(p, e)), SentAhead(s, p, e).1;
            if !Referable(s.events[e]) then error == NoReference && t == s
            else if |s.work[p]| < s.cap[p] then error == NoError && HasCome(s, t, p, e, [e] + s.work[p])
            else
              && error == NoResource && t.events == s.events[e := Referenced(s.events[e])]
              && t == s.(events := t.events, leaked := t.leaked)
  {
    assert EventOk(s, e);
    ReferableIff(s.events[e]);
  }

  // ---- events ----

  /** A created event is dynamic, unreferenced and fresh, so its creator may send it to any registered
      agent. */
  lemma CreateEffect(s: Sys, e: int)
    requires Inv(s) && e !in s.events && e !in s.freed
    ensures Enabled(s, Create(e))
    ensures var t := Next(s, Create(e));
            && t.events == s.events[e := Event(Dynamic, 0)] && t.unsent == s.unsent + {e}
            && t == s.(events := t.events, unsent := t.unsent)
            && forall p: nat | p < |s.work| && !s.stage[p].Off? :: Enabled(t, Send(p, e)) && Enabled(t, SendAhead(p, e))
  {
  }

  /** Destroying frees the event if it is dynamic and unreferenced; otherwise nothing happens. */
  lemma DestroyEffect(s: Sys, e: int)
    requires Inv(s) && Owns(s, e)
    ensures Enabled(s, Destroy(e))
    ensures var t := Next(s, Destroy(e));
            if s.events[e].attr.Dynamic? && s.events[e].ref == 0 then OnlyFreed(s, e, t) else t == s
  {
  }

  /** A lock reserves an event that is not static, at any time. */
  lemma LockEffect(s: Sys, e: int)
    requires Inv(s) && e in s.events
    ensures Enabled(s, Lock(e))
    ensures var t := Next(s, Lock(e));
            if s.events[e].attr.Static? then t == s
            else t == s.(events := t.events) && t.events == s.events[e := Event(Reserved, s.events[e].ref)]
  {
  }

  /** An unlock makes an event that is not static dynamic and frees it if and only if it is
      unreferenced. */
  lemma UnlockEffect(s: Sys, e: int)
    requires Inv(s) && e in s.events && UnlockSafe(s, e)
    ensures Enabled(s, Unlock(e))
    ensures var t := Next(s, Unlock(e));
            if s.events[e].attr.Static? then t == s
            else if s.events[e].ref == 0 then OnlyFreed(s, e, t)
            else t == s.(events := t.events) && t.events == s.events[e := Event(Dynamic, s.events[e].ref)]
  {
  }

  lemma ReservedStep(s: Sys, st: Step, e: int)
    requires Inv(s) && Enabled(s, st) && e in s.events && s.events[e].attr.Reserved? && st != Unlock(e)
    ensures e in Next(s, st).events && Next(s, st).events[e].attr.Reserved?
  {
    hide Inv, Enabled, Next;
    if Frees(st) { ReservedWhenFreeing(s, st, e); } else { ReservedOtherwise(s, st, e); }
  }

  lemma ReservedWhenFreeing(s: Sys, st: Step, e: int)
    requires Inv(s) && Enabled(s, st) && e in s.events && s.events[e].attr.Reserved? && st != Unlock(e) && Frees(st)
    ensures e in Next(s, st).events && Next(s, st).events[e].attr.Reserved?
  {
    hide EventOk, Thread, NoRepeats, Occurs, RefValue;
    match st
    case Send(p, x) => ReservedKept(s, p, x, e);
    case SendAhead(p, x) => ReservedKept(s, p, x, e);
    case FetchSend => ReservedForwarded(s, e);
    case _ =>
  }

  lemma ReservedKept(s: Sys, p: nat, x: int, e: int)
    requires p < |s.work| == |s.ref| == |s.cap| && x in s.events && e in s.events && s.events[e].attr.Reserved?
    ensures e in Sent(s, p, x).0.events && Sent(s, p, x).0.events[e].attr.Reserved?
    ensures e in SentAhead(s, p, x).0.events && SentAhead(s, p, x).0.events[e].attr.Reserved?
  {
    hide RefValue;
  }

  lemma ReservedForwarded(s: Sys, e: int)
    requires Inv(s) && s.hand.Some? && e in s.events && s.events[e].attr.Reserved?
    ensures e in Next(s, FetchSend).events && Next(s, FetchSend).events[e].attr.Reserved?
  {
    hide EventOk, Thread, NoRepeats, Occurs, Sent;
    HandExists(s);
    ReservedKept(s, s.main.epa, s.hand.value, e);
  }

  lemma ReservedOtherwise(s: Sys, st: Step, e: int)
    requires Inv(s) && Enabled(s, st) && e in s.events && s.events[e].attr.Reserved? && !Frees(st)
    ensures e in Next(s, st).events && Next(s, st).events[e].attr.Reserved?
  {
    hide EventOk, Thread, NoRepeats, Occurs, RefValue;
  }

  /** A reserved event survives every run that does not unlock it, whatever else is done to it. */
  lemma {:induction false} ReservedSurvives(s: Sys, run: seq<Step>, e: int)
    requires Inv(s) && After(s, run).Some? && e in s.events && s.events[e].attr.Reserved?
    requires forall i | 0 <= i < |run| :: run[i] != Unlock(e)
    ensures e in After(s, run).value.events && After(s, run).value.events[e].attr.Reserved?
    decreases |run|
  {
    hide Inv, Enabled, Next;
    if run != [] {
      StepKeeps(s, run[0]);
      ReservedStep(s, run[0], e);
      ReservedSurvives(Next(s, run[0]), run[1..], e);
    }
  }

  // ---- starting an agent ----

  /** Registering gives the agent its first reference, makes its thread ready and its start due. */
  lemma RegisterEffect(s: Sys, p: nat)
    requires Inv(s) && p < |s.work| && s.stage[p].Off?
    ensures Enabled(s, Register(p))
    ensures var t := Next(s, Register(p));
            && s.ref[p] == 0 && t.ref == s.ref[p := 1] && t.ready == s.ready + {p} && t.stage == s.stage[p := Starting]
            && t == s.(ref := t.ref, ready := t.ready, stage := t.stage)
            && (s.main.Scheduling? ==> Enabled(t, InitBegin(p)))
  {
    assert Thread(s, p);
  }

  lemma InitBeginEffect(s: Sys, p: nat)
    requires Inv(s) && s.main.Scheduling? && p < |s.work| && s.stage[p].Starting?
    ensures Enabled(s, InitBegin(p)) && Next(s, InitBegin(p)) == s.(main := Initialising(p))
    ensures Enabled(Next(s, InitBegin(p)), InitEnd)
  {
    assert Thread(s, p);
  }

  /** After its first dispatch an agent runs, and is ready exactly if events have come in. */
  lemma InitEndEffect(s: Sys)
    requires Inv(s) && s.main.Initialising? && s.hand == None
    ensures Enabled(s, InitEnd)
    ensures var t, p := Next(s, InitEnd), s.main.epa;
            && s.ref[p] > 0 && t.stage == s.stage[p := Running] && t.main == Scheduling
                 && t.ref == s.ref[p := s.ref[p] - 1]
            && (p in t.ready <==> |s.work[p]| > 0) && (forall q: nat | q != p :: q in t.ready <==> q in s.ready)
            && t == s.(stage := t.stage, main := t.main, ref := t.ref, ready := t.ready)
  {
    assert Thread(s, s.main.epa);
  }

  /** A registered agent can be started: three steps of the main loop take it from off to running. */
  lemma AgentStarts(s: Sys, p: nat)
    requires Inv(s) && s.main.Scheduling? && p < |s.work| && s.stage[p].Off?
    ensures var r := After(s, [Register(p), InitBegin(p), InitEnd]);
            && r.Some? && r.value == s.(stage := s.stage[p := Running])
  {
    RegisterEffect(s, p);
    var t := Next(s, Register(p));
    StepKeeps(s, Register(p));
    InitBeginEffect(t, p);
    var u := Next(t, InitBegin(p));
    StepKeeps(t, InitBegin(p));
    InitEndEffect(u);
    assert Thread(s, p);
    ThreeSteps(s, Register(p), InitBegin(p), InitEnd);
    var v := Next(u, InitEnd);
    assert v.ref == s.ref && v.ready == s.ready;
  }

  lemma ThreeSteps(s: Sys, a: Step, b: Step, c: Step)
    requires Inv(s) && Enabled(s, a) && Inv(Next(s, a)) && Enabled(Next(s, a), b)
    requires Inv(Next(Next(s, a), b)) && Enabled(Next(Next(s, a), b), c)
    ensures After(s, [a, b, c]) == Some(Next(Next(Next(s, a), b), c))
  {
    hide Inv, Enabled, Next;
    StepKeeps(Next(Next(s, a), b), c);
    assert [a, b, c][1..] == [b, c] && [b, c][1..] == [c] && [c][1..] == [];
    assert After(Next(Next(s, a), b), [c]) == Some(Next(Next(Next(s, a), b), c));
    assert After(Next(s, a), [b, c]) == Some(Next(Next(Next(s, a), b), c));
  }

  // ---- dispatching ----

  /** Taking hands the front event of the queue to the agent. */
  lemma TakeEffect(s: Sys, p: nat)
    requires Inv(s) && s.main.Scheduling? && p < |s.work| && s.stage[p].Running? && |s.work[p]| > 0
    ensures Enabled(s, Take(p))
    ensures var t := Next(s, Take(p));
            && t.main == Dispatching(p, s.work[p][0]) && t.work == s.work[p := s.work[p][1..]]
            && t == s.(main := t.main, work := t.work) && Enabled(t, HandlerEnd)
  {
    assert Thread(s, p);
  }

  /** The end of the handler gives the dispatch reference back, and the dispatch can finish. */
  lemma HandlerEndEffect(s: Sys)
    requires Inv(s) && s.main.Dispatching? && s.hand == None
    ensures Enabled(s, HandlerEnd)
    ensures var t, e := Next(s, HandlerEnd), s.main.ev;
            && e in s.events && t.main == Releasing(s.main.epa, e) && t == s.(main := t.main, events := t.events)
            && (s.events[e].attr.Static? || s.events[e].ref > 0)
            && t.events == (if s.events[e].attr.Static? then s.events
                            else s.events[e := Event(s.events[e].attr, s.events[e].ref - 1)])
            && Enabled(t, Finish)
  {
    assert EventOk(s, s.main.ev);
  }

  /** The dispatch ends: the thread count goes down, the thread stays ready exactly if events are
      queued, and the event is freed exactly if it is dynamic and unreferenced. */
  lemma FinishEffect(s: Sys)
    requires Inv(s) && s.main.Releasing?
    ensures Enabled(s, Finish)
    ensures var t, p, e := Next(s, Finish), s.main.epa, s.main.ev;
            && e in s.events && s.ref[p] > 0 && t.main == Scheduling && t.ref == s.ref[p := s.ref[p] - 1]
            && (p in t.ready <==> |s.work[p]| > 0) && (forall q: nat | q != p :: q in t.ready <==> q in s.ready)
            && (t.work, t.deferred, t.stage, t.hand, t.leaked) == (s.work, s.deferred, s.stage, s.hand, s.leaked)
            && if s.events[e] == Event(Dynamic, 0)
               then OnlyFreed(s, e, t.(main := s.main, ref := s.ref, ready := s.ready))
               else (t.events, t.freed, t.unsent) == (s.events, s.freed, s.unsent)
  {
    assert Thread(s, s.main.epa) && EventOk(s, s.main.ev);
  }

  /** Every event queued for a running agent can be dispatched to the end: the agent gets the front
      event, its thread count and queue go down by one, and the kernel is back to scheduling. */
  lemma DispatchCompletes(s: Sys, p: nat)
    requires Inv(s) && s.main.Scheduling? && p < |s.work| && s.stage[p].Running? && |s.work[p]| > 0
    ensures var e, r := s.work[p][0], After(s, [Take(p), HandlerEnd, Finish]);
            && r.Some? && r.value.main == Scheduling && r.value.stage == s.stage
            && r.value.work == s.work[p := s.work[p][1..]] && s.ref[p] > 0 && r.value.ref == s.ref[p := s.ref[p] - 1]
            && e in s.events && (e !in r.value.events <==> s.events[e] == Event(Dynamic, 1))
  {
    TakeEffect(s, p);
    var t := Next(s, Take(p));
    StepKeeps(s, Take(p));
    HandlerEndEffect(t);
    var u := Next(t, HandlerEnd);
    StepKeeps(t, HandlerEnd);
    FinishEffect(u);
    QueuedIsCounted(s, s.work, p, s.work[p][0]);
    assert Thread(s, p);
    ThreeSteps(s, Take(p), HandlerEnd, Finish);
  }

  // ---- deferring ----

  /** A deferred event is queued and referenced if there is room; otherwise nothing happens. */
  lemma DeferEffect(s: Sys, d: nat, e: int)
    requires Inv(s) && InHandler(s) && d < |s.deferred| && Owns(s, e)
    ensures Enabled(s, Defer(d, e))
    ensures var t := Next(s, Defer(d, e));
            if |s.deferred[d]| < s.dcap[d] then
              && t.deferred == s.deferred[d := s.deferred[d] + [e]] && t.unsent == s.unsent - {e}
              && t.events == s.events[e := Referenced(s.events[e])]
              && t == s.(deferred := t.deferred, unsent := t.unsent, events := t.events)
            else t == s
  {
    assert EventOk(s, e);
  }
}

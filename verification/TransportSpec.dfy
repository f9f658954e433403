/** Event transport as a protocol: every step the main loop and the interrupts can take between
    two lock boundaries, over event reference counts, queues and thread counts. An event's number
    stands for one allocation of it, so it is never reused. */
module TransportSpec {
  import opened Bits
  import opened Options

  /** `nevent::attrib`: 0, NEVENT_ATTR_DYNAMIC or NEVENT_ATTR_RESERVED. */
  datatype Attr = Static | Dynamic | Reserved

  datatype Event = Event(attr: Attr, ref: nat)

  /** An agent's life: not registered, waiting for its first dispatch, or running. */
  datatype Stage = Off | Starting | Running

  /** Where the main loop is. In `Releasing` the event's count is already lowered and the event
      not yet destroyed: the lock is not held between the two. */
  datatype Main = Scheduling | Initialising(epa: nat) | Dispatching(epa: nat, ev: int) | Releasing(epa: nat, ev: int)

  datatype Error = NoError | NoResource | NoReference

  datatype Sys = Sys(
    events: map<int, Event>,       // events that exist
    work: seq<seq<int>>,           // working queue of every agent
    cap: seq<nat>,
    ref: seq<nat>,                 // thread reference counts
    ready: set<nat>,               // agents whose thread is in the run queue
    stage: seq<Stage>,
    deferred: seq<seq<int>>,       // queues of deferred events
    dcap: seq<nat>,
    main: Main,
    hand: Option<int>,             // got from a deferred queue, not yet sent on
    unsent: set<int>,              // history: created and not yet sent
    freed: seq<int>,               // history: events freed, in order
    leaked: multiset<int>          // history: references no queue stands for
  )

  const REF_LIMIT: nat := 65535    // NEVENT_REF_LIMIT

  /** `nevent_ref`: the count, or-ed with attrib ^ NEVENT_ATTR_DYNAMIC. */
  function RefValue(e: Event): nat {
    match e.attr
    case Static => Or(e.ref, 0x00ff)
    case Dynamic => Or(e.ref, 0)
    case Reserved => Or(e.ref, 0x0f00)
  }

  lemma OrZero(x: nat, y: nat)
    ensures Or(x, y) == 0 <==> x == 0 && y == 0
    ensures Or(x, 0) == x
  {
  }

  /** Only an unreferenced event that is neither static nor reserved has count zero. */
  lemma RefValueZero(e: Event)
    ensures RefValue(e) == 0 <==> e == Event(Dynamic, 0)
  {
    OrZero(e.ref, 0x00ff);
    OrZero(e.ref, 0);
    OrZero(e.ref, 0x0f00);
  }

  // ---- counting ----

  /** How often `e` is queued in `qs`. */
  ghost function Occurs(qs: seq<seq<int>>, e: int): nat {
    if |qs| == 0 then 0 else multiset(qs[0])[e] + Occurs(qs[1..], e)
  }

  lemma {:induction false} OccursUpdate(qs: seq<seq<int>>, i: nat, q: seq<int>, e: int)
    requires i < |qs|
    ensures Occurs(qs[i := q], e) == Occurs(qs, e) - multiset(qs[i])[e] + multiset(q)[e]
    ensures multiset(qs[i])[e] <= Occurs(qs, e)
  {
    if i == 0 {
      assert qs[0 := q][1..] == qs[1..];
    } else {
      assert qs[i := q][1..] == qs[1..][i - 1 := q];
      OccursUpdate(qs[1..], i - 1, q, e);
    }
  }

  /** Putting an event at either end of a queue adds one occurrence of it. */
  lemma OccursPut(qs: seq<seq<int>>, i: nat, x: int, e: int)
    requires i < |qs|
    ensures Occurs(qs[i := qs[i] + [x]], e) == Occurs(qs, e) + if e == x then 1 else 0
    ensures Occurs(qs[i := [x] + qs[i]], e) == Occurs(qs, e) + if e == x then 1 else 0
  {
    OccursUpdate(qs, i, qs[i] + [x], e);
    OccursUpdate(qs, i, [x] + qs[i], e);
  }

  /** Taking the front event removes one occurrence of it. */
  lemma OccursGet(qs: seq<seq<int>>, i: nat, e: int)
    requires i < |qs| && |qs[i]| > 0
    ensures Occurs(qs, e) == Occurs(qs[i := qs[i][1..]], e) + if e == qs[i][0] then 1 else 0
  {
    OccursUpdate(qs, i, qs[i][1..], e);
    assert qs[i] == [qs[i][0]] + qs[i][1..];
  }

  lemma OccursIn(qs: seq<seq<int>>, i: nat, e: int)
    requires i < |qs| && e in qs[i]
    ensures Occurs(qs, e) > 0
  {
    OccursUpdate(qs, i, qs[i], e);
  }

  lemma {:induction false} OccursNowhere(qs: seq<seq<int>>, e: int)
    requires Occurs(qs, e) == 0
    ensures forall i | 0 <= i < |qs| :: e !in qs[i]
  {
    forall i | 0 <= i < |qs| ensures e !in qs[i] {
      if e in qs[i] { OccursIn(qs, i, e); }
    }
  }

  // ---- the invariant ----

  ghost predicate Shape(s: Sys) {
    && |s.work| == |s.cap| == |s.ref| == |s.stage| && |s.deferred| == |s.dcap|
    && (match s.main
        case Scheduling => s.hand == None
        case Initialising(p) => p < |s.work| && s.stage[p] == Starting
        case Dispatching(p, e) => p < |s.work| && s.stage[p] == Running
        case Releasing(p, e) => p < |s.work| && s.stage[p] == Running && s.hand == None)
  }

  /** References the kernel owes `e`: one for each place in a queue, one while it is dispatched. */
  ghost function Count(s: Sys, e: int): nat {
    Occurs(s.work, e) + Occurs(s.deferred, e) + if s.main.Dispatching? && s.main.ev == e then 1 else 0
  }

  /** The kernel is going to use `e` again. */
  ghost predicate Held(s: Sys, e: int) {
    Count(s, e) > 0 || s.hand == Some(e) || (s.main.Releasing? && s.main.ev == e)
  }

  /** What every event keeps, existing or not. */
  ghost predicate EventOk(s: Sys, e: int) {
    && (e in s.events ==> s.events[e].ref == if s.events[e].attr.Static? then 0 else Count(s, e) + s.leaked[e])
    && (Held(s, e) ==> e in s.events)
    && (e in s.unsent ==> e in s.events && !s.events[e].attr.Static? && !Held(s, e))
    && (e in s.freed ==> e !in s.events)
    && (e in s.leaked ==> e in s.events && !s.events[e].attr.Static?)
    && (e in s.events && s.events[e].attr.Dynamic? ==> Held(s, e) || e in s.unsent || e in s.leaked)
  }

  ghost predicate NoRepeats(f: seq<int>) {
    forall i, j | 0 <= i < j < |f| :: f[i] != f[j]
  }

  /** The thread count of an agent: its queued events, plus one while its first dispatch is due
      or an event is being dispatched; the thread is queued to run when the count is positive. */
  ghost predicate Thread(s: Sys, p: nat)
    requires |s.work| == |s.cap| == |s.ref| == |s.stage| && p < |s.work|
  {
    && s.ref[p] == |s.work[p]| + (if s.stage[p].Starting? then 1 else 0)
                  + (if (s.main.Dispatching? || s.main.Releasing?) && s.main.epa == p then 1 else 0)
    && (p in s.ready <==> s.ref[p] > 0) && |s.work[p]| <= s.cap[p]
    && (s.stage[p].Off? ==> s.ref[p] == 0)
  }

  ghost predicate Inv(s: Sys) {
    && Shape(s) && (forall e :: EventOk(s, e)) && NoRepeats(s.freed)
    && (forall p: nat | p < |s.work| :: Thread(s, p))
  }

  /** After start-up: static events only, nothing registered, nothing queued. */
  ghost predicate Init(s: Sys) {
    && |s.work| == |s.cap| == |s.ref| == |s.stage| && |s.deferred| == |s.dcap|
    && (forall e | e in s.events :: s.events[e] == Event(Static, 0))
    && (forall p | 0 <= p < |s.work| :: s.work[p] == [] && s.ref[p] == 0 && s.stage[p] == Off)
    && (forall d | 0 <= d < |s.deferred| :: s.deferred[d] == [])
    && s.ready == {} && s.main == Scheduling && s.hand == None
    && s.unsent == {} && s.freed == [] && s.leaked == multiset{}
  }

  // ---- what one event, queue or thread goes through ----

  /** `nevent_ref_up`. */
  function RefUp(s: Sys, e: int): Sys
    requires e in s.events
  {
    if s.events[e].attr.Static? then s else s.(events := s.events[e := s.events[e].(ref := s.events[e].ref + 1)])
  }

  /** `nevent_ref_down`. */
  function RefDown(s: Sys, e: int): Sys
    requires e in s.events && (s.events[e].attr.Static? || s.events[e].ref > 0)
  {
    if s.events[e].attr.Static? then s else s.(events := s.events[e := s.events[e].(ref := s.events[e].ref - 1)])
  }

  function Freed(s: Sys, e: int): Sys {
    s.(events := s.events - {e}, freed := s.freed + [e], unsent := s.unsent - {e})
  }

  /** `nevent_destroy_i`: frees an event that nobody needs and that may be freed. */
  function Destroyed(s: Sys, e: int): Sys
    requires e in s.events
  {
    if s.events[e] == Event(Dynamic, 0) then Freed(s, e) else s
  }

  /** `nqueue_put_fifo` or `nqueue_put_lifo`, then `nthread_insert_i`. */
  function Queued(s: Sys, p: nat, e: int, front: bool): Sys
    requires p < |s.work| == |s.ref|
  {
    s.(work := s.work[p := if front then [e] + s.work[p] else s.work[p] + [e]],
       ref := s.ref[p := s.ref[p] + 1], ready := s.ready + {p}, unsent := s.unsent - {e})
  }

  /** `nthread_remove_i`. */
  function Blocked(s: Sys, p: nat): Sys
    requires p < |s.ref| && s.ref[p] > 0
  {
    s.(ref := s.ref[p := s.ref[p] - 1], ready := if s.ref[p] == 1 then s.ready - {p} else s.ready)
  }

  /** `nepa_send_event_i`. */
  function Sent(s: Sys, p: nat, e: int): (Sys, Error)
    requires p < |s.work| == |s.ref| == |s.cap| && e in s.events
  {
    if RefValue(s.events[e]) >= REF_LIMIT then (s, NoReference)
    else if |s.work[p]| < s.cap[p] then (Queued(RefUp(s, e), p, e, false), NoError)
    else (Destroyed(s, e), NoResource)
  }

  /** A dynamic event sent ahead to a full queue. */
  predicate LosesReference(s: Sys, p: nat, e: int)
    requires p < |s.work| == |s.cap| && e in s.events
  {
    !s.events[e].attr.Static? && RefValue(s.events[e]) < REF_LIMIT && |s.work[p]| >= s.cap[p]
  }

  /** `nepa_send_event_ahead_i`: when the queue is full the reference taken is not given back. */
  function SentAhead(s: Sys, p: nat, e: int): (Sys, Error)
    requires p < |s.work| == |s.ref| == |s.cap| && e in s.events
  {
    if RefValue(s.events[e]) >= REF_LIMIT then (s, NoReference)
    else if |s.work[p]| < s.cap[p] then (Queued(RefUp(s, e), p, e, true), NoError)
    else if s.events[e].attr.Static? then (s, NoResource)
    else (RefUp(s, e).(leaked := s.leaked + multiset{e}), NoResource)
  }

  // ---- the steps ----

  datatype Step =
    // handlers and interrupts
    | Create(e: int) | Destroy(e: int) | Send(p: nat, e: int) | SendAhead(p: nat, e: int)
    | Lock(e: int) | Unlock(e: int)
    // the main loop
    | Register(p: nat) | InitBegin(p: nat) | InitEnd | Take(p: nat) | HandlerEnd | Finish
    // a running handler
    | Defer(d: nat, e: int) | FetchTake(d: nat) | FetchSend

  /** A handler is running and not in the middle of a fetch. */
  predicate InHandler(s: Sys) {
    (s.main.Initialising? || s.main.Dispatching?) && s.hand == None
  }

  /** A caller may use an event it has just created, the one being dispatched, or a static one. */
  predicate Owns(s: Sys, e: int) {
    e in s.events && (e in s.unsent || s.events[e].attr.Static? || (s.main.Dispatching? && s.main.ev == e))
  }

  predicate MaySend(s: Sys, p: nat, e: int)
    requires |s.work| == |s.stage|
  {
    p < |s.work| && !s.stage[p].Off? && Owns(s, e)
  }

  /** Unlocking frees an unreferenced event at once, so it must not be one that the main loop has
      taken out of a queue and is about to send on or to destroy itself. */
  predicate UnlockSafe(s: Sys, e: int)
    requires e in s.events
  {
    || s.events[e].attr.Static? || s.events[e].ref > 0
    || !(s.hand == Some(e) || (s.main.Releasing? && s.main.ev == e))
  }

  predicate Enabled(s: Sys, st: Step)
    requires |s.work| == |s.stage|
  {
    match st
    case Create(e) => e !in s.events && e !in s.freed
    case Destroy(e) => Owns(s, e)
    case Send(p, e) => MaySend(s, p, e)
    case SendAhead(p, e) => MaySend(s, p, e)
    case Register(p) => p < |s.work| && s.stage[p].Off?
    case InitBegin(p) => s.main.Scheduling? && p < |s.work| && p in s.ready && s.stage[p].Starting?
    case InitEnd => s.main.Initialising? && s.hand == None
    case Take(p) => s.main.Scheduling? && p < |s.work| && p in s.ready && s.stage[p].Running?
    case HandlerEnd => s.main.Dispatching? && s.hand == None
    case Finish => s.main.Releasing?
    case Defer(d, e) => InHandler(s) && d < |s.deferred| && Owns(s, e)
    case FetchTake(d) => InHandler(s) && d < |s.deferred| && |s.deferred[d]| > 0
    case FetchSend => s.hand.Some?
    case Lock(e) => e in s.events
    case Unlock(e) => e in s.events && UnlockSafe(s, e)
  }

  /** First dispatch done: the thread blocks and dispatches events from now on. */
  function InitEnded(s: Sys, p: nat): Sys
    requires p < |s.ref| == |s.stage| && s.ref[p] > 0
  {
    Blocked(s, p).(stage := s.stage[p := Running], main := Scheduling)
  }

  function Taken(s: Sys, p: nat): Sys
    requires p < |s.work| && |s.work[p]| > 0
  {
    s.(work := s.work[p := s.work[p][1..]], main := Dispatching(p, s.work[p][0]))
  }

  function Deferred(s: Sys, d: nat, e: int): (Sys, Error)
    requires d < |s.deferred| == |s.dcap| && e in s.events
  {
    if |s.deferred[d]| < s.dcap[d] then
      (RefUp(s, e).(deferred := s.deferred[d := s.deferred[d] + [e]], unsent := s.unsent - {e}), NoError)
    else (s, NoResource)
  }

  /** `nqueue_get` and `nevent_ref_down` of a fetch. */
  function Fetched(s: Sys, d: nat): Sys
    requires d < |s.deferred| && |s.deferred[d]| > 0 && s.deferred[d][0] in s.events
    requires s.events[s.deferred[d][0]].attr.Static? || s.events[s.deferred[d][0]].ref > 0
  {
    var e := s.deferred[d][0];
    RefDown(s, e).(deferred := s.deferred[d := s.deferred[d][1..]], hand := Some(e))
  }

  /** `nevent_lock` and `nevent_unlock` leave a static event alone. */
  function Marked(s: Sys, e: int, attr: Attr): Sys
    requires e in s.events
  {
    if s.events[e].attr.Static? then s else s.(events := s.events[e := s.events[e].(attr := attr)])
  }

  /** `nevent_unlock`. */
  function Unlocked(s: Sys, e: int): Sys
    requires e in s.events
  {
    if s.events[e].attr.Static? then s else Destroyed(Marked(s, e, Dynamic), e)
  }

  /** A ready agent past its start has an event to take, and the other way round. */
  lemma TakeIsSafe(s: Sys, p: nat)
    requires Inv(s) && s.main.Scheduling? && p < |s.work| && s.stage[p].Running?
    ensures p in s.ready <==> |s.work[p]| > 0
  {
    assert Thread(s, p);
  }

  /** A queued event exists and holds a reference. */
  lemma QueuedIsCounted(s: Sys, qs: seq<seq<int>>, d: nat, e: int)
    requires Inv(s) && (qs == s.work || qs == s.deferred) && d < |qs| && e in qs[d]
    ensures e in s.events && (s.events[e].attr.Static? || s.events[e].ref > 0)
  {
    OccursIn(qs, d, e);
    assert EventOk(s, e);
  }

  ghost function Next(s: Sys, st: Step): Sys
    requires Inv(s) && Enabled(s, st)
  {
    match st
    case Create(e) => s.(events := s.events[e := Event(Dynamic, 0)], unsent := s.unsent + {e})
    case Destroy(e) => Destroyed(s, e)
    case Send(p, e) => Sent(s, p, e).0
    case SendAhead(p, e) => SentAhead(s, p, e).0
    case Register(p) => s.(stage := s.stage[p := Starting], ref := s.ref[p := s.ref[p] + 1], ready := s.ready + {p})
    case InitBegin(p) => s.(main := Initialising(p))
    case InitEnd =>
      assert Thread(s, s.main.epa);
      InitEnded(s, s.main.epa)
    case Take(p) =>
      TakeIsSafe(s, p);
      Taken(s, p)
    case HandlerEnd =>
      assert EventOk(s, s.main.ev);
      RefDown(s, s.main.ev).(main := Releasing(s.main.epa, s.main.ev))
    case Finish =>
      assert Thread(s, s.main.epa) && EventOk(s, s.main.ev);
      Blocked(Destroyed(s, s.main.ev), s.main.epa).(main := Scheduling)
    case Defer(d, e) => Deferred(s, d, e).0
    case FetchTake(d) =>
      QueuedIsCounted(s, s.deferred, d, s.deferred[d][0]);
      Fetched(s, d)
    case FetchSend =>
      assert EventOk(s, s.hand.value);
      Sent(s, s.main.epa, s.hand.value).0.(hand := None)
    case Lock(e) => Marked(s, e, Reserved)
    case Unlock(e) => Unlocked(s, e)
  }
}

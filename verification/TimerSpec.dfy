/** Virtual timers as a map from timer to remaining ticks, and what any run of starts,
    cancels and tick interrupts does to it. */
module TimerSpec {
  import opened Bits

  /** Ticks until the timer fires; `period` is the reload value, 0 for a one-shot. */
  datatype Entry = Entry(left: int, period: int)

  type Timers = map<int, Entry>

  ghost function Started(m: Timers, t: int, tick: int, repeat: bool): Timers {
    m[t := Entry(tick + 1, if repeat then tick + 1 else 0)]
  }

  ghost function Cancelled(m: Timers, t: int): Timers {
    m - {t}
  }

  ghost predicate Due(m: Timers, t: int) {
    t in m && m[t].left == 1
  }

  /** One interrupt: everybody loses a tick, due timers reload or go. */
  ghost function Ticked(m: Timers): Timers {
    map t | t in m && (!Due(m, t) || m[t].period != 0) ::
      if t !in m then Entry(0, 0)
      else if Due(m, t) then Entry(m[t].period, m[t].period)
      else Entry(m[t].left - 1, m[t].period)
  }

  // ---- runs ----

  datatype TimerOp = Start(t: int, tick: int, repeat: bool) | Cancel(t: int) | Tick

  ghost function Step(m: Timers, op: TimerOp): Timers {
    match op
    case Start(t, tick, repeat) => Started(m, t, tick, repeat)
    case Cancel(t) => Cancelled(m, t)
    case Tick => Ticked(m)
  }

  ghost function Run(m: Timers, ops: seq<TimerOp>): Timers {
    if |ops| == 0 then m else Step(Run(m, ops[..|ops| - 1]), ops[|ops| - 1])
  }

  /** Does timer `t` fire in the `i`-th step of the run? */
  ghost predicate FiresAt(m: Timers, ops: seq<TimerOp>, i: nat, t: int)
    requires i < |ops|
  {
    ops[i].Tick? && Due(Run(m, ops[..i]), t)
  }

  /** Interrupts among the operations. */
  function Ticks(ops: seq<TimerOp>): nat {
    if |ops| == 0 then 0 else Ticks(ops[..|ops| - 1]) + if ops[|ops| - 1].Tick? then 1 else 0
  }

  /** The operations neither start nor cancel `t`. */
  ghost predicate LeavesAlone(ops: seq<TimerOp>, t: int) {
    forall i | 0 <= i < |ops| :: (ops[i].Start? || ops[i].Cancel?) ==> ops[i].t != t
  }

  /** Until it is due a one-shot timer loses one tick an interrupt, then it is gone. */
  lemma {:induction false} OneShotLeft(m: Timers, t: int, tick: nat, ops: seq<TimerOp>)
    requires LeavesAlone(ops, t)
    ensures var r, n := Run(Started(m, t, tick, false), ops), Ticks(ops);
            if n <= tick then t in r && r[t] == Entry(tick + 1 - n, 0) else t !in r
  {
    if |ops| > 0 {
      OneShotLeft(m, t, tick, ops[..|ops| - 1]);
    }
  }

  /** A one-shot timer started with `tick` fires on the (tick+1)-th interrupt after the
      start and on no other, whatever happens to the other timers. */
  lemma OneShotFires(m: Timers, t: int, tick: nat, ops: seq<TimerOp>, i: nat)
    requires LeavesAlone(ops, t) && i < |ops|
    ensures FiresAt(Started(m, t, tick, false), ops, i, t) <==> ops[i].Tick? && Ticks(ops[..i + 1]) == tick + 1
  {
    OneShotLeft(m, t, tick, ops[..i]);
    assert ops[..i + 1][..i] == ops[..i];
  }

  lemma ModStep(n: nat, d: nat)
    requires d > 0
    ensures (n + 1) % d == if n % d == d - 1 then 0 else n % d + 1
  {
    var q, r := n / d, n % d;
    assert n == d * q + r;
    if r == d - 1 {
      assert n + 1 == d * (q + 1) by { assert d * (q + 1) == d * q + d; }
      ModOf(n + 1, d, q + 1, 0);
    } else {
      ModOf(n + 1, d, q, r + 1);
    }
  }

  /** The remainder is the one number below the divisor that leaves a multiple of it. */
  lemma ModOf(x: int, d: int, q: int, r: int)
    requires d > 0 && 0 <= r < d && x == d * q + r
    ensures x % d == r
  {
    var e := q - x / d;
    assert d * e == x % d - r by { assert d * e == d * q - d * (x / d); }
    if e >= 1 { MulAtLeast(d, e); }
    if e <= -1 { MulAtLeast(d, -e); }
  }

  lemma {:induction false} MulAtLeast(d: int, e: int)
    requires d > 0 && e >= 1
    ensures d * e >= d
    decreases e
  {
    if e > 1 { MulAtLeast(d, e - 1); assert d * e == d * (e - 1) + d; }
  }

  /** `n` mod `d`, counted up one by one. */
  function Phase(d: nat, n: nat): (r: nat)
    requires d > 0
    ensures r < d
  {
    if n == 0 then 0 else if Phase(d, n - 1) == d - 1 then 0 else Phase(d, n - 1) + 1
  }

  lemma {:induction false} PhaseIsMod(d: nat, n: nat)
    requires d > 0
    ensures Phase(d, n) == n % d
  {
    if n > 0 {
      PhaseIsMod(d, n - 1);
      ModStep(n - 1, d);
    } else {
      ModOf(0, d, 0, 0);
    }
  }

  /** A repeat timer counts down its period over and over. */
  lemma {:induction false} RepeatLeft(m: Timers, t: int, tick: nat, ops: seq<TimerOp>)
    requires LeavesAlone(ops, t)
    ensures var r, d := Run(Started(m, t, tick, true), ops), tick + 1;
            t in r && r[t] == Entry(d - Phase(d, Ticks(ops)), d)
  {
    if |ops| > 0 {
      RepeatLeft(m, t, tick, ops[..|ops| - 1]);
    }
  }

  /** A repeat timer started with `tick` fires on exactly every (tick+1)-th interrupt. */
  lemma RepeatFires(m: Timers, t: int, tick: nat, ops: seq<TimerOp>, i: nat)
    requires LeavesAlone(ops, t) && i < |ops|
    ensures FiresAt(Started(m, t, tick, true), ops, i, t) <==> ops[i].Tick? && Ticks(ops[..i + 1]) % (tick + 1) == 0
  {
    RepeatLeft(m, t, tick, ops[..i]);
    PhaseIsMod(tick + 1, Ticks(ops[..i + 1]));
    assert ops[..i + 1][..i] == ops[..i];
  }

  ghost predicate NotStarted(ops: seq<TimerOp>, t: int) {
    forall i | 0 <= i < |ops| :: ops[i].Start? ==> ops[i].t != t
  }

  lemma {:induction false} CancelledStaysOff(m: Timers, t: int, ops: seq<TimerOp>)
    requires NotStarted(ops, t)
    ensures t !in Run(Cancelled(m, t), ops)
  {
    if |ops| > 0 {
      CancelledStaysOff(m, t, ops[..|ops| - 1]);
    }
  }

  /** A cancelled timer does not fire until it is started again. */
  lemma CancelledNeverFires(m: Timers, t: int, ops: seq<TimerOp>, i: nat)
    requires i < |ops| && NotStarted(ops, t)
    ensures !FiresAt(Cancelled(m, t), ops, i, t)
  {
    CancelledStaysOff(m, t, ops[..i]);
  }
}

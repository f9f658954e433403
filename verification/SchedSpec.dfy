/** The run queue as one FIFO sequence a priority, and the fairness of serving it. */
module SchedSpec {
  import opened DList

  /** `q[b]` lists the ready threads of priority `b`, next to run first. */
  type RunQueue = seq<seq<int>>

  ghost function Queued(q: RunQueue, b: nat, t: int): RunQueue
    requires b < |q|
  {
    q[b := q[b] + [t]]
  }

  ghost function Position(s: seq<int>, t: int): (i: nat)
    requires t in s
    ensures i < |s| && s[i] == t && t !in s[..i]
  {
    if s[0] == t then 0 else 1 + Position(s[1..], t)
  }

  ghost function Dequeued(q: RunQueue, b: nat, t: int): RunQueue
    requires b < |q| && t in q[b]
  {
    q[b := Without(q[b], Position(q[b], t))]
  }

  /** The front thread of priority `b` goes to the back. */
  ghost function Rotated(q: RunQueue, b: nat): RunQueue
    requires b < |q| && |q[b]| > 0
  {
    q[b := q[b][1..] + [q[b][0]]]
  }

  /** `b` is the highest priority with a ready thread. */
  ghost predicate IsTop(q: RunQueue, b: nat) {
    b < |q| && |q[b]| > 0 && forall c | b < c < |q| :: |q[c]| == 0
  }

  // ---- runs ----

  datatype SchedOp = Insert(b: nat, t: int) | Remove(b: nat, t: int) | Schedule(top: nat)

  ghost predicate Enabled(q: RunQueue, op: SchedOp) {
    match op
    case Insert(b, t) => b < |q| && forall c | 0 <= c < |q| :: t !in q[c]
    case Remove(b, t) => b < |q| && t in q[b]
    case Schedule(top) => IsTop(q, top)
  }

  ghost function Step(q: RunQueue, op: SchedOp): RunQueue
    requires Enabled(q, op)
  {
    match op
    case Insert(b, t) => Queued(q, b, t)
    case Remove(b, t) => Dequeued(q, b, t)
    case Schedule(top) => Rotated(q, top)
  }

  ghost predicate Runs(q: RunQueue, ops: seq<SchedOp>)
    decreases |ops|
  {
    |ops| > 0 ==> Enabled(q, ops[0]) && Runs(Step(q, ops[0]), ops[1..])
  }

  /** The threads returned by the `Schedule` steps that serve priority `b`, in order. */
  ghost function Served(q: RunQueue, ops: seq<SchedOp>, b: nat): seq<int>
    requires Runs(q, ops)
    decreases |ops|
  {
    if |ops| == 0 then []
    else (if ops[0] == Schedule(b) then [q[b][0]] else []) + Served(Step(q, ops[0]), ops[1..], b)
  }

  ghost predicate NotRemoved(ops: seq<SchedOp>, t: int) {
    forall i | 0 <= i < |ops| :: ops[i].Remove? ==> ops[i].t != t
  }

  /** An operation other than serving it moves a waiting thread only forward. */
  lemma StepPosition(q: RunQueue, op: SchedOp, b: nat, t: int)
    requires Enabled(q, op) && b < |q| && t in q[b] && (op.Remove? ==> op.t != t)
    ensures |Step(q, op)| == |q| && t in Step(q, op)[b]
    ensures op != Schedule(b) ==> Position(Step(q, op)[b], t) <= Position(q[b], t)
    ensures op == Schedule(b) && q[b][0] != t ==> Position(Step(q, op)[b], t) == Position(q[b], t) - 1
  {
    var p := Position(q[b], t);
    var s := Step(q, op)[b];
    match op {
      case Insert(c, u) =>
        if c == b { assert s[p] == t; FirstPosition(s, t, p); }
      case Remove(c, u) =>
        if c == b {
          var k := Position(q[b], u);
          var p' := if k < p then p - 1 else p;
          assert s[p'] == t;
          FirstPosition(s, t, p');
        }
      case Schedule(top) =>
        if top == b && q[b][0] != t {
          assert s[p - 1] == t;
          assert t !in s[..p - 1] by {
            assert forall i | 0 <= i < p - 1 :: s[i] == q[b][..p][i + 1];
          }
          FirstPosition(s, t, p - 1);
          PositionUnique(s, t, p - 1);
        } else if top == b {
          assert s[|s| - 1] == t;
        }
    }
  }

  lemma {:induction false} FirstPosition(s: seq<int>, t: int, i: nat)
    requires i < |s| && s[i] == t
    ensures t in s && Position(s, t) <= i
  {
    if s[0] != t { FirstPosition(s[1..], t, i - 1); }
  }

  lemma PositionUnique(s: seq<int>, t: int, i: nat)
    requires i < |s| && s[i] == t && t !in s[..i]
    ensures t in s && Position(s, t) == i
  {
    FirstPosition(s, t, i);
    var p := Position(s, t);
    assert forall j | 0 <= j < i :: s[..i][j] == s[j];
  }

  /** Bounded waiting: a thread at position `p` that is not removed is among the first
      `p + 1` threads its priority serves, whatever else is inserted or removed. */
  lemma {:induction false} BoundedWaiting(q: RunQueue, ops: seq<SchedOp>, b: nat, t: int)
    requires Runs(q, ops) && NotRemoved(ops, t) && b < |q| && t in q[b]
    requires |Served(q, ops, b)| > Position(q[b], t)
    ensures t in Served(q, ops, b)[..Position(q[b], t) + 1]
    decreases |ops|
  {
    var p, s := Position(q[b], t), Served(q, ops, b);
    var op, q' := ops[0], Step(q, ops[0]);
    StepPosition(q, op, b, t);
    var s' := Served(q', ops[1..], b);
    if op == Schedule(b) && q[b][0] == t {
      assert s[..p + 1][0] == t;
    } else {
      assert NotRemoved(ops[1..], t) by {
        forall i | 0 <= i < |ops[1..]| ensures ops[1..][i].Remove? ==> ops[1..][i].t != t {
          assert ops[1..][i] == ops[i + 1];
        }
      }
      BoundedWaiting(q', ops[1..], b, t);
      var p' := Position(q'[b], t);
      var i :| 0 <= i < p' + 1 && s'[..p' + 1][i] == t;
      var j := if op == Schedule(b) then i + 1 else i;
      assert s[j] == s'[i] && j < p + 1;
      assert s[..p + 1][j] == t;
    }
  }

  // ---- a fixed ready set ----

  /** `n` schedules in a row of priority `b`. */
  function Turns(b: nat, n: nat): seq<SchedOp> {
    seq(n, _ => Schedule(b))
  }

  ghost function RotatedBy(q: RunQueue, b: nat, n: nat): RunQueue
    requires b < |q| && n <= |q[b]|
  {
    q[b := q[b][n..] + q[b][..n]]
  }

  /** With nothing else going on, `n` schedules serve the first `n` threads in order. */
  lemma {:induction false} TurnsServe(q: RunQueue, b: nat, n: nat, k: nat)
    requires IsTop(q, b) && k + n <= |q[b]|
    ensures Runs(RotatedBy(q, b, k), Turns(b, n))
    ensures Served(RotatedBy(q, b, k), Turns(b, n), b) == q[b][k..k + n]
    decreases n
  {
    var r := RotatedBy(q, b, k);
    assert IsTop(r, b);
    if n > 0 {
      assert Turns(b, n)[1..] == Turns(b, n - 1);
      assert Step(r, Schedule(b)) == RotatedBy(q, b, k + 1) by {
        assert r[b][1..] + [r[b][0]] == q[b][k + 1..] + q[b][..k + 1];
      }
      TurnsServe(q, b, n - 1, k + 1);
      assert [q[b][k]] + q[b][k + 1..k + n] == q[b][k..k + n];
    }
  }

  /** With a fixed ready set, as many schedules as there are top-priority threads return
      each of them exactly once, and nobody else, and leave the queue as it was. */
  lemma RoundRobin(q: RunQueue, b: nat)
    requires IsTop(q, b) && Distinct(q[b])
    ensures Runs(q, Turns(b, |q[b]|)) && Served(q, Turns(b, |q[b]|), b) == q[b]
    ensures forall t :: multiset(Served(q, Turns(b, |q[b]|), b))[t] == if t in q[b] then 1 else 0
    ensures RotatedBy(q, b, |q[b]|) == q
  {
    assert q[b][0..] + q[b][..0] == q[b] && q[b][|q[b]|..] + q[b][..|q[b]|] == q[b];
    assert q[b := q[b]] == q;
    TurnsServe(q, b, |q[b]|, 0);
    forall t | t in q[b] ensures multiset(q[b])[t] == 1 { OnceEach(q[b], t); }
  }

  lemma {:induction false} OnceEach(s: seq<int>, t: int)
    requires Distinct(s) && t in s
    ensures multiset(s)[t] == 1
  {
    var i :| 0 <= i < |s| && s[i] == t;
    assert s == s[..i] + [t] + s[i + 1..];
    assert t !in s[..i] && t !in s[i + 1..];
  }

  // ---- a thread that comes and goes ----

  /** A thread that is not queued can join any priority, and leaving again restores the queues. */
  lemma InsertThenRemove(q: RunQueue, b: nat, t: int)
    requires b < |q| && forall c | 0 <= c < |q| :: t !in q[c]
    ensures Runs(q, [Insert(b, t), Remove(b, t)]) && Run(q, [Insert(b, t), Remove(b, t)]) == q
  {
    var s := q[b] + [t];
    var r := q[b := s];
    assert s[|s| - 1] == t && t !in s[..|s| - 1];
    PositionUnique(s, t, |s| - 1);
    assert Without(s, |s| - 1) == q[b];
    assert Dequeued(r, b, t) == q;
    assert [Insert(b, t), Remove(b, t)][1..] == [Remove(b, t)] && [Remove(b, t)][1..] == [];
    assert Run(q, []) == q;
    assert Runs(r, [Remove(b, t)]) && Run(r, [Remove(b, t)]) == q;
  }

  // ---- no thread is queued twice ----

  ghost predicate AllDistinct(q: RunQueue) {
    forall b | 0 <= b < |q| :: Distinct(q[b])
  }

  lemma StepDistinct(q: RunQueue, op: SchedOp)
    requires Enabled(q, op) && AllDistinct(q)
    ensures AllDistinct(Step(q, op))
  {
    match op
    case Insert(b, t) =>
      assert q[b] + [t] == WithAt(q[b], |q[b]|, t);
      WithAtMembers(q[b], |q[b]|, t);
    case Remove(b, t) => WithoutMembers(q[b], Position(q[b], t));
    case Schedule(top) => RotatedDistinct(q[top]);
  }

  lemma RotatedDistinct(s: seq<int>)
    requires Distinct(s) && |s| > 0
    ensures Distinct(s[1..] + [s[0]])
  {
    forall i, j | 0 <= i < j < |s| ensures (s[1..] + [s[0]])[i] != (s[1..] + [s[0]])[j] {
      assert (s[1..] + [s[0]])[i] == s[i + 1];
      assert (s[1..] + [s[0]])[j] == if j + 1 < |s| then s[j + 1] else s[0];
    }
  }

  /** In every reachable state no priority lists a thread twice, so `RoundRobin` applies. */
  lemma {:induction false} RunDistinct(q: RunQueue, ops: seq<SchedOp>)
    requires Runs(q, ops) && AllDistinct(q)
    ensures AllDistinct(Run(q, ops))
    decreases |ops|
  {
    if |ops| > 0 {
      StepDistinct(q, ops[0]);
      RunDistinct(Step(q, ops[0]), ops[1..]);
    }
  }

  // ---- the scheduler never runs dry ----

  ghost function Run(q: RunQueue, ops: seq<SchedOp>): RunQueue
    requires Runs(q, ops)
    decreases |ops|
  {
    if |ops| == 0 then q else Run(Step(q, ops[0]), ops[1..])
  }

  lemma {:induction false} TopExists(q: RunQueue, b: nat, n: nat) returns (top: nat)
    requires n <= |q| && b < n && |q[b]| > 0 && forall c | n <= c < |q| :: |q[c]| == 0
    ensures IsTop(q, top)
    decreases n
  {
    if |q[n - 1]| > 0 { top := n - 1; } else { top := TopExists(q, b, n - 1); }
  }

  /** The idle thread is queued first and never removed, so in every reachable state there
      is a thread to schedule. */
  lemma {:induction false} AlwaysSchedulable(q: RunQueue, ops: seq<SchedOp>, idle: int) returns (top: nat)
    requires Runs(q, ops) && NotRemoved(ops, idle) && 0 < |q| && idle in q[0]
    ensures |Run(q, ops)| == |q| && idle in Run(q, ops)[0]
    ensures Enabled(Run(q, ops), Schedule(top))
    decreases |ops|
  {
    if |ops| == 0 {
      top := TopExists(q, 0, |q|);
    } else {
      StepPosition(q, ops[0], 0, idle);
      assert NotRemoved(ops[1..], idle) by {
        forall i | 0 <= i < |ops[1..]| ensures ops[1..][i].Remove? ==> ops[1..][i].t != idle {
          assert ops[1..][i] == ops[i + 1];
        }
      }
      top := AlwaysSchedulable(Step(q, ops[0]), ops[1..], idle);
    }
  }
}

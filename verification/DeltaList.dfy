/** Delta lists: `q` lists the running timers in firing order and `rt` holds each timer's
    ticks relative to its predecessor. */
module DeltaList {
  import opened DList

  ghost predicate InBounds(rt: seq<int>, q: seq<int>) {
    forall t | t in q :: 0 <= t < |rt|
  }

  /** Ticks until the `k`-th timer of the list: the sum of the first `k` deltas. */
  ghost function Sum(rt: seq<int>, q: seq<int>, k: nat): int
    requires InBounds(rt, q) && k <= |q|
  {
    if k == 0 then 0 else Sum(rt, q, k - 1) + (assert q[k - 1] in q; rt[q[k - 1]])
  }

  /** Remaining ticks of every timer on the list. */
  ghost function Lefts(rt: seq<int>, q: seq<int>): (m: map<int, int>)
    requires InBounds(rt, q)
    ensures forall t :: t in m <==> t in q
  {
    map t | t in q :: if t in q then Sum(rt, q, IndexOf(q, t) + 1) else 0
  }

  /** One tick less for everybody. */
  ghost function Decreased(l: map<int, int>): map<int, int> {
    map t | t in l :: if t in l then l[t] - 1 else 0
  }

  lemma LeftsAt(rt: seq<int>, q: seq<int>, i: nat)
    requires InBounds(rt, q) && Distinct(q) && i < |q|
    ensures q[i] in q && Lefts(rt, q)[q[i]] == Sum(rt, q, i + 1)
  {
  }

  ghost predicate DeltasNonNegative(rt: seq<int>, q: seq<int>)
    requires InBounds(rt, q)
  {
    forall t | t in q :: rt[t] >= 0
  }

  /** With no negative delta the remaining ticks grow along the list. */
  lemma {:induction false} SumMonotone(rt: seq<int>, q: seq<int>, i: nat, j: nat)
    requires InBounds(rt, q) && DeltasNonNegative(rt, q) && i <= j <= |q|
    ensures 0 <= Sum(rt, q, i) <= Sum(rt, q, j)
    decreases j
  {
    if i < j {
      SumMonotone(rt, q, i, j - 1);
      assert q[j - 1] in q;
    } else if i > 0 {
      SumMonotone(rt, q, i - 1, i - 1);
      assert q[i - 1] in q;
    }
  }

  /** Timers whose deltas agree have the same sums. */
  lemma {:induction false} SumSame(rt: seq<int>, rt': seq<int>, q: seq<int>, q': seq<int>, k: nat)
    requires InBounds(rt, q) && InBounds(rt', q') && k <= |q| && k <= |q'|
    requires forall i | 0 <= i < k :: q'[i] == q[i] && (assert q[i] in q && q'[i] in q'; rt'[q[i]] == rt[q[i]])
    ensures Sum(rt', q', k) == Sum(rt, q, k)
  {
    if k > 0 { SumSame(rt, rt', q, q', k - 1); }
  }

  /** The delta of a timer that is not on the list does not matter. */
  lemma OutsideWrite(rt: seq<int>, q: seq<int>, t: int, v: int, max: int)
    requires WellFormed(rt, q, max) && 0 <= t < |rt| && t !in q
    ensures WellFormed(rt[t := v], q, max) && Lefts(rt[t := v], q) == Lefts(rt, q)
  {
    var rt' := rt[t := v];
    assert forall i | 0 <= i < |q| :: q[i] in q && q[i] != t;
    forall x | x in q ensures rt'[x] == rt[x] && Lefts(rt', q)[x] == Lefts(rt, q)[x] {
      SumSame(rt, rt', q, q, IndexOf(q, x) + 1);
    }
  }

  // ---- insertion ----

  /** Deltas after timer `t`, due in `d` ticks, enters at position `k`. */
  ghost function InsertDeltas(rt: seq<int>, q: seq<int>, k: nat, t: int, d: int): (r: seq<int>)
    requires InBounds(rt, q) && k <= |q| && 0 <= t < |rt|
    ensures |r| == |rt|
  {
    var e := d - Sum(rt, q, k);
    var rt1 := rt[t := e];
    if k < |q| then (assert q[k] in q; rt1[q[k] := rt1[q[k]] - e]) else rt1
  }

  lemma InsertInBounds(rt: seq<int>, q: seq<int>, k: nat, t: int, d: int)
    requires InBounds(rt, q) && Distinct(q) && k <= |q| && 0 <= t < |rt| && t !in q
    ensures InBounds(InsertDeltas(rt, q, k, t, d), WithAt(q, k, t)) && Distinct(WithAt(q, k, t))
  {
    WithAtMembers(q, k, t);
  }

  lemma {:induction false} InsertSum(rt: seq<int>, q: seq<int>, k: nat, t: int, d: int, i: nat)
    requires InBounds(rt, q) && Distinct(q) && k <= |q| && 0 <= t < |rt| && t !in q && i <= |q| + 1
    ensures InBounds(InsertDeltas(rt, q, k, t, d), WithAt(q, k, t))
    ensures Sum(InsertDeltas(rt, q, k, t, d), WithAt(q, k, t), i) ==
              if i <= k then Sum(rt, q, i) else if i == k + 1 then d else Sum(rt, q, i - 1)
  {
    var rt', q' := InsertDeltas(rt, q, k, t, d), WithAt(q, k, t);
    InsertInBounds(rt, q, k, t, d);
    if i > 0 {
      InsertSum(rt, q, k, t, d, i - 1);
      assert q'[i - 1] in q';
      if i - 1 != k {
        var j := if i - 1 < k then i - 1 else i - 2;
        assert q'[i - 1] == q[j] && q[j] in q;
      }
    }
  }

  lemma InsertLeft(rt: seq<int>, q: seq<int>, k: nat, t: int, d: int, j: nat)
    requires InBounds(rt, q) && Distinct(q) && k <= |q| && 0 <= t < |rt| && t !in q && j <= |q|
    ensures InBounds(InsertDeltas(rt, q, k, t, d), WithAt(q, k, t))
    ensures var x := WithAt(q, k, t)[j];
            && x in WithAt(q, k, t) && (x == t || x in q)
            && Lefts(InsertDeltas(rt, q, k, t, d), WithAt(q, k, t))[x] == if x == t then d else Lefts(rt, q)[x]
  {
    InsertInBounds(rt, q, k, t, d);
    InsertSum(rt, q, k, t, d, j + 1);
    LeftsAt(InsertDeltas(rt, q, k, t, d), WithAt(q, k, t), j);
    if j != k {
      var i := if j < k then j else j - 1;
      assert WithAt(q, k, t)[j] == q[i];
      LeftsAt(rt, q, i);
    }
  }

  /** Inserting changes nobody else's remaining ticks. */
  lemma InsertLefts(rt: seq<int>, q: seq<int>, k: nat, t: int, d: int)
    requires InBounds(rt, q) && Distinct(q) && k <= |q| && 0 <= t < |rt| && t !in q
    ensures InBounds(InsertDeltas(rt, q, k, t, d), WithAt(q, k, t))
    ensures Lefts(InsertDeltas(rt, q, k, t, d), WithAt(q, k, t)) == Lefts(rt, q)[t := d]
  {
    WithAtMembers(q, k, t);
    InsertInBounds(rt, q, k, t, d);
    var l, l' := Lefts(rt, q)[t := d], Lefts(InsertDeltas(rt, q, k, t, d), WithAt(q, k, t));
    forall x | x in l' ensures x in l && l'[x] == l[x] {
      InsertLeft(rt, q, k, t, d, IndexOf(WithAt(q, k, t), x));
    }
    assert l'.Keys == l.Keys;
  }

  /** No delta is negative and no timer is further away than `max`. */
  ghost predicate WellFormed(rt: seq<int>, q: seq<int>, max: int) {
    && InBounds(rt, q) && Distinct(q) && DeltasNonNegative(rt, q)
    && forall t | t in q :: Lefts(rt, q)[t] <= max
  }

  /** Inserting in front of the first timer that is due no earlier keeps all deltas
      non-negative, and the new one positive if the timer is not due at once. */
  lemma InsertWellFormed(rt: seq<int>, q: seq<int>, k: nat, t: int, d: int, max: int)
    requires WellFormed(rt, q, max) && k <= |q| && 0 <= t < |rt| && t !in q
    requires 0 <= d <= max && (k == 0 || Sum(rt, q, k) < d) && (k < |q| ==> q[k] in q && d <= Sum(rt, q, k) + rt[q[k]])
    ensures WellFormed(InsertDeltas(rt, q, k, t, d), WithAt(q, k, t), max)
    ensures d > 0 ==> InsertDeltas(rt, q, k, t, d)[t] > 0
    ensures forall x | 0 <= x < |rt| && x != t && x !in q :: InsertDeltas(rt, q, k, t, d)[x] == rt[x]
    ensures Lefts(InsertDeltas(rt, q, k, t, d), WithAt(q, k, t)) == Lefts(rt, q)[t := d]
  {
    assert Sum(rt, q, k) <= d && (d > 0 ==> Sum(rt, q, k) < d);
    InsertBetween(rt, q, k, t, d, max);
  }

  lemma InsertBetween(rt: seq<int>, q: seq<int>, k: nat, t: int, d: int, max: int)
    requires WellFormed(rt, q, max) && k <= |q| && 0 <= t < |rt| && t !in q && d <= max
    requires Sum(rt, q, k) <= d && (d > 0 ==> Sum(rt, q, k) < d)
    requires k < |q| ==> q[k] in q && d <= Sum(rt, q, k) + rt[q[k]]
    ensures WellFormed(InsertDeltas(rt, q, k, t, d), WithAt(q, k, t), max)
    ensures d > 0 ==> InsertDeltas(rt, q, k, t, d)[t] > 0
    ensures forall x | 0 <= x < |rt| && x != t && x !in q :: InsertDeltas(rt, q, k, t, d)[x] == rt[x]
    ensures Lefts(InsertDeltas(rt, q, k, t, d), WithAt(q, k, t)) == Lefts(rt, q)[t := d]
  {
    hide Sum, Lefts, WithAt, Distinct;
    InsertLefts(rt, q, k, t, d);
    WithAtMembers(q, k, t);
    var rt', q' := InsertDeltas(rt, q, k, t, d), WithAt(q, k, t);
    forall x | x in q' ensures rt'[x] >= 0 && Lefts(rt', q')[x] <= max {
      assert x in q || x == t;
    }
  }

  // ---- removal ----

  /** Deltas after the timer at position `k` leaves and its successor takes over its ticks. */
  ghost function RemoveDeltas(rt: seq<int>, q: seq<int>, k: nat): (r: seq<int>)
    requires InBounds(rt, q) && k < |q|
    ensures |r| == |rt|
  {
    assert q[k] in q;
    if k + 1 < |q| then (assert q[k + 1] in q; rt[q[k + 1] := rt[q[k + 1]] + rt[q[k]]]) else rt
  }

  lemma RemoveInBounds(rt: seq<int>, q: seq<int>, k: nat)
    requires InBounds(rt, q) && Distinct(q) && k < |q|
    ensures InBounds(RemoveDeltas(rt, q, k), Without(q, k)) && Distinct(Without(q, k))
  {
    WithoutMembers(q, k);
  }

  lemma {:induction false} RemoveSum(rt: seq<int>, q: seq<int>, k: nat, i: nat)
    requires InBounds(rt, q) && Distinct(q) && k < |q| && i < |q|
    ensures InBounds(RemoveDeltas(rt, q, k), Without(q, k))
    ensures Sum(RemoveDeltas(rt, q, k), Without(q, k), i) == if i <= k then Sum(rt, q, i) else Sum(rt, q, i + 1)
  {
    var rt', q' := RemoveDeltas(rt, q, k), Without(q, k);
    RemoveInBounds(rt, q, k);
    if i > 0 {
      RemoveSum(rt, q, k, i - 1);
      var j := if i - 1 < k then i - 1 else i;
      assert q'[i - 1] == q[j] && q[j] in q && q'[i - 1] in q';
    }
  }

  lemma RemoveLeft(rt: seq<int>, q: seq<int>, k: nat, j: nat)
    requires InBounds(rt, q) && Distinct(q) && k < |q| && j < |q| - 1
    ensures InBounds(RemoveDeltas(rt, q, k), Without(q, k))
    ensures var x := Without(q, k)[j];
            x in Without(q, k) && x in q && Lefts(RemoveDeltas(rt, q, k), Without(q, k))[x] == Lefts(rt, q)[x]
  {
    hide Sum, Lefts, RemoveDeltas;
    RemoveInBounds(rt, q, k);
    RemoveSum(rt, q, k, j + 1);
    LeftsAt(RemoveDeltas(rt, q, k), Without(q, k), j);
    LeftsAt(rt, q, if j < k then j else j + 1);
  }

  /** Removing changes nobody else's remaining ticks. */
  lemma RemoveLefts(rt: seq<int>, q: seq<int>, k: nat)
    requires InBounds(rt, q) && Distinct(q) && k < |q|
    ensures InBounds(RemoveDeltas(rt, q, k), Without(q, k))
    ensures Lefts(RemoveDeltas(rt, q, k), Without(q, k)) == Lefts(rt, q) - {q[k]}
  {
    WithoutMembers(q, k);
    RemoveInBounds(rt, q, k);
    var l, l' := Lefts(rt, q) - {q[k]}, Lefts(RemoveDeltas(rt, q, k), Without(q, k));
    forall x | x in l' ensures x in l && l'[x] == l[x] {
      RemoveLeft(rt, q, k, IndexOf(Without(q, k), x));
    }
    assert l'.Keys == l.Keys;
  }

  /** Removing keeps all deltas non-negative, and the successor's new delta within `max`. */
  lemma RemoveWellFormed(rt: seq<int>, q: seq<int>, k: nat, max: int)
    requires WellFormed(rt, q, max) && k < |q|
    ensures WellFormed(RemoveDeltas(rt, q, k), Without(q, k), max)
    ensures Lefts(RemoveDeltas(rt, q, k), Without(q, k)) == Lefts(rt, q) - {q[k]}
  {
    RemoveLefts(rt, q, k);
    WithoutMembers(q, k);
    assert q[k] in q && (k + 1 < |q| ==> q[k + 1] in q);
    var rt', q' := RemoveDeltas(rt, q, k), Without(q, k);
    forall t | t in q' ensures rt'[t] >= 0 && Lefts(rt', q')[t] <= max {
      assert t in q && Lefts(rt', q')[t] == Lefts(rt, q)[t];
    }
  }

  /** A head with no ticks left has none to hand over. */
  lemma ZeroHead(rt: seq<int>, q: seq<int>)
    requires InBounds(rt, q) && |q| > 0 && q[0] in q && rt[q[0]] == 0
    ensures RemoveDeltas(rt, q, 0) == rt
  {
    assert |q| > 1 ==> q[1] in q;
  }

  /** Two neighbouring deltas together stay within `max`. */
  lemma DeltaPair(rt: seq<int>, q: seq<int>, k: nat, max: int)
    requires WellFormed(rt, q, max) && k + 1 < |q|
    ensures q[k] in q && q[k + 1] in q && 0 <= rt[q[k]] + rt[q[k + 1]] <= max
  {
    LeftsAt(rt, q, k + 1);
    SumMonotone(rt, q, 0, k);
    assert q[k] in q && q[k + 1] in q;
    assert Sum(rt, q, k + 2) == Sum(rt, q, k + 1) + rt[q[k + 1]];
    assert Sum(rt, q, k + 1) == Sum(rt, q, k) + rt[q[k]];
  }

  // ---- the passing of one tick ----

  lemma {:induction false} TickSum(rt: seq<int>, q: seq<int>, i: nat)
    requires InBounds(rt, q) && Distinct(q) && 0 < i <= |q|
    ensures q[0] in q
    ensures Sum(rt[q[0] := rt[q[0]] - 1], q, i) == Sum(rt, q, i) - 1
  {
    assert q[0] in q;
    var rt' := rt[q[0] := rt[q[0]] - 1];
    assert q[i - 1] in q;
    if i > 1 {
      TickSum(rt, q, i - 1);
    } else {
      assert Sum(rt', q, 0) == 0;
    }
  }

  /** Taking one tick off the head takes one off everybody. */
  lemma TickLefts(rt: seq<int>, q: seq<int>)
    requires InBounds(rt, q) && Distinct(q) && |q| > 0
    ensures q[0] in q
    ensures Lefts(rt[q[0] := rt[q[0]] - 1], q) == Decreased(Lefts(rt, q))
  {
    assert q[0] in q;
    var rt' := rt[q[0] := rt[q[0]] - 1];
    forall t | t in q ensures Lefts(rt', q)[t] == Lefts(rt, q)[t] - 1 {
      TickSum(rt, q, IndexOf(q, t) + 1);
    }
  }
}

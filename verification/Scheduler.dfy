/** `sched.c` in memory: a ring of threads for every priority, the bitmap over the rings
    and the threads' reference counts. */
module Scheduler {
  import opened Bits
  import opened DList
  import opened Links
  import opened PrioBitmap
  import opened SchedSpec

  class RunContext {
    const n: nat                // CONFIG_PRIORITY_BUCKETS
    const links: LinkMemory     // nodes 0 .. n-1 are the bucket sentinels, the rest threads
    const bias: array<nat>      // a thread's priority
    const ref: array<nat>       // a thread's reference count
    const bitmap: Bitmap
    var current: int
    ghost var q: RunQueue

    ghost predicate IsThread(t: int) {
      n <= t < links.next.Length
    }

    ghost predicate Memory()
      reads this`q
    {
      && links.Valid() && links.next.Length == bias.Length == ref.Length && n <= links.next.Length
      && links.next as object != bias && links.prev as object != bias && bias != ref
      && links.next as object != ref && links.prev as object != ref
      && links.next as object != bitmap.bit && links.prev as object != bitmap.bit
      && bitmap.bit != bias && bitmap.bit != ref
      && bitmap.n == n == |q|
    }

    ghost predicate Typed(q: RunQueue, b: nat)
      requires b < |q|
      reads bias
    {
      forall t | t in q[b] :: n <= t < links.next.Length && t < bias.Length && bias[t] == b
    }

    /** Bucket `b` is a ring of threads of that priority through its sentinel. */
    ghost predicate Bucket(b: nat)
      requires Memory() && b < n
      reads this`q, links.next, links.prev, bias
    {
      RingOf(links.next[..], links.prev[..], q, b) && Typed(q, b)
    }

    /** A thread is queued exactly when it is referenced; queued means in its own bucket. */
    ghost predicate Referenced(t: int)
      requires Memory() && IsThread(t)
      reads this`q, bias, ref
    {
      bias[t] < n && (ref[t] > 0 <==> t in q[bias[t]])
    }

    /** The bitmap marks exactly the buckets that hold a thread. */
    ghost predicate Agrees(b: nat)
      requires Memory() && bitmap.Valid() && b < n
      reads this`q, bitmap, bitmap.bit
    {
      bitmap.Marked(b) <==> |q[b]| > 0
    }

    ghost predicate Valid()
      reads this`q, links.next, links.prev, bitmap, bitmap.bit, bias, ref
    {
      && Memory() && bitmap.Valid()
      && (forall b: nat | b < n :: Bucket(b))
      && (forall b: nat | b < n :: Agrees(b))
      && (forall t | IsThread(t) :: Referenced(t))
    }

    /** `prio_queue_init`, and every thread idle with the priority it was given. */
    constructor (lw: nat, n: nat, prio: seq<nat>)
      requires IndicesFit(lw, n) && 0 < n && High(lw, n + Pow2(lw) - 1) <= 32
      requires forall i | 0 <= i < |prio| :: prio[i] < n
      ensures Valid() && this.n == n && links.next.Length == n + |prio|
      ensures |q| == n && forall b | 0 <= b < n :: q[b] == []
      ensures forall t | IsThread(t) :: bias[t] == prio[t - n]
    {
      this.n := n;
      links := new LinkMemory(n + |prio|);
      bias := new nat[n + |prio|](i requires 0 <= i < n + |prio| => if i < n then 255 else prio[i - n]);
      ref := new nat[n + |prio|](_ => 0);
      bitmap := new Bitmap(lw, n);
      current := 0;
      q := seq(n, _ => []);
      new;
      hide WellFormed, Has, Ring, High, Pow2;
      forall b: nat | b < n ensures Bucket(b) {
        assert [b] + q[b] == [b];
        SelfRing(links.next[..], links.prev[..], b);
      }
      forall b: nat | b < n ensures Agrees(b) { assert !bitmap.Marked(b); }
    }

    /** No bucket lists a thread twice. */
    lemma QueuesDistinct()
      requires Valid()
      ensures AllDistinct(q)
    {
      forall b | 0 <= b < |q| ensures Distinct(q[b]) {
        assert Bucket(b);
        TailDistinct(b, q[b]);
      }
    }

    /** Changing one ring leaves the others as they were. */
    lemma OthersKept(b: nat, t: int, next0: seq<int>, prev0: seq<int>)
      requires Memory() && b < n && IsThread(t) && bias[t] == b
      requires forall c: nat | c < n :: RingOf(next0, prev0, q, c) && Typed(q, c)
      requires |next0| == |prev0| == links.next.Length
      requires forall a | 0 <= a < links.next.Length && a !in [b] + q[b] && a != t ::
                 links.next[a] == next0[a] && links.prev[a] == prev0[a]
      ensures forall c: nat | c < n && c != b :: RingOf(links.next[..], links.prev[..], q, c)
    {
      forall c: nat | c < n && c != b ensures RingOf(links.next[..], links.prev[..], q, c) {
        var r := [c] + q[c];
        assert RingOf(next0, prev0, q, c) && Typed(q, c) && Typed(q, b);
        forall a | a in r ensures SameLinks(next0, prev0, links.next[..], links.prev[..], 0, a) {
          assert a !in [b] + q[b] && a != t;
        }
        RingFrame(next0, prev0, links.next[..], links.prev[..], 0, r);
      }
    }

    /** `nbias_list_is_empty` on a bucket's sentinel. */
    method BucketIsEmpty(b: nat) returns (empty: bool)
      requires Memory() && b < n && Bucket(b)
      ensures empty <==> |q[b]| == 0
    {
      empty := links.next[b] == b;
      Anchor(links.next[..], links.prev[..], 0, [b] + q[b]);
      if |q[b]| > 0 { assert q[b][0] in q[b]; }
    }

    /** All buckets are rings: what the list operations keep. */
    ghost predicate Rings()
      requires Memory()
      reads this`q, links.next, links.prev, bias
    {
      forall b: nat | b < n :: Bucket(b)
    }

    /** `nbias_list_fifo_insert` into the thread's bucket. */
    method FifoInsert(t: int)
      requires Memory() && Rings() && IsThread(t) && bias[t] < n && t !in q[bias[t]]
      modifies links.next, links.prev, this`q
      ensures Memory() && Rings() && q == Queued(old(q), bias[t], t)
    {
      var b := bias[t];
      ghost var r := [b] + q[b];
      ghost var next0, prev0 := links.next[..], links.prev[..];
      assert Bucket(b);
      forall c: nat | c < n ensures RingOf(next0, prev0, q, c) && Typed(q, c) { assert Bucket(c); }
      links.AddBefore(b, t, r, |r|);
      OthersKept(b, t, next0, prev0);
      assert WithAt(r, |r|, t) == [b] + (q[b] + [t]);
      ghost var q0 := q;
      q := Queued(q, b, t);
      forall c: nat | c < n ensures Bucket(c) {
        assert Typed(q0, c);
        if c != b { assert RingOf(links.next[..], links.prev[..], q0, c); }
      }
    }

    /** `nbias_list_remove` of a queued thread. */
    method ListRemove(t: int)
      requires Memory() && Rings() && IsThread(t) && bias[t] < n && t in q[bias[t]]
      modifies links.next, links.prev, this`q
      ensures Memory() && Rings() && q == Dequeued(old(q), bias[t], t)
    {
      ghost var b := bias[t];
      ghost var r, k := [b] + q[b], Position(q[b], t);
      ghost var next0, prev0 := links.next[..], links.prev[..];
      assert Bucket(b);
      forall c: nat | c < n ensures RingOf(next0, prev0, q, c) && Typed(q, c) { assert Bucket(c); }
      assert r[k + 1] == t;
      links.Remove(t, r, k + 1);
      OthersKept(b, t, next0, prev0);
      ConsWithout(b, q[b], k);
      ghost var q0 := q;
      q := Dequeued(q, b, t);
      forall c: nat | c < n ensures Bucket(c) {
        assert Typed(q0, c);
        if c != b { assert RingOf(links.next[..], links.prev[..], q0, c); }
      }
    }

    /** `prio_queue_insert`: the bitmap is marked when the bucket was empty. */
    method QueueInsert(t: int)
      requires Memory() && Rings() && bitmap.Valid() && (forall b: nat | b < n :: Agrees(b))
      requires IsThread(t) && bias[t] < n && t !in q[bias[t]]
      modifies links.next, links.prev, bitmap`group, bitmap.bit, this`q
      ensures Memory() && Rings() && bitmap.Valid() && (forall b: nat | b < n :: Agrees(b))
      ensures q == Queued(old(q), bias[t], t)
    {
      var bucket := bias[t];
      assert Bucket(bucket) && Agrees(bucket);
      var empty := BucketIsEmpty(bucket);
      if empty {
        bitmap.Set(bucket);
      }
      label Marked:
      forall b: nat | b < n ensures bitmap.Marked(b) <==> |q[b]| > 0 || b == bucket { assert old(Agrees(b)); }
      FifoInsert(t);
      forall b: nat | b < n ensures Agrees(b) { assert old@Marked(bitmap.Marked(b)) == bitmap.Marked(b); }
    }

    /** `prio_queue_remove`: the bitmap is cleared when the bucket becomes empty. */
    method QueueRemove(t: int)
      requires Memory() && Rings() && bitmap.Valid() && (forall b: nat | b < n :: Agrees(b))
      requires IsThread(t) && bias[t] < n && t in q[bias[t]]
      modifies links.next, links.prev, bitmap`group, bitmap.bit, this`q
      ensures Memory() && Rings() && bitmap.Valid() && (forall b: nat | b < n :: Agrees(b))
      ensures q == Dequeued(old(q), bias[t], t)
    {
      hide Ring, Without;
      var bucket := bias[t];
      ListRemove(t);
      assert Bucket(bucket);
      var empty := BucketIsEmpty(bucket);
      forall b: nat | b < n ensures bitmap.Marked(b) <==> |q[b]| > 0 || b == bucket { assert old(Agrees(b)); }
      label Removed:
      if empty {
        bitmap.Clear(bucket);
      }
      forall b: nat | b < n ensures Agrees(b) { assert old@Removed(bitmap.Marked(b)) <==> |q[b]| > 0 || b == bucket; }
    }

    /** `prio_queue_rotate` of the thread at the front of its bucket. */
    method QueueRotate(t: int)
      requires Memory() && Rings() && IsThread(t) && bias[t] < n && |q[bias[t]]| > 0 && t == q[bias[t]][0]
      modifies links.next, links.prev, this`q
      ensures Memory() && Rings() && q == Rotated(old(q), bias[t])
    {
      ghost var b, s := bias[t], q[bias[t]];
      assert Bucket(b);
      assert Position(s, t) == 0 && Without(s, 0) == s[1..];
      assert t !in s[1..] by {
        assert ([b] + s)[1] == t;
        assert forall i | 0 <= i < |s[1..]| :: s[1..][i] == ([b] + s)[i + 2];
      }
      ListRemove(t);
      FifoInsert(t);
    }

    /** `prio_queue_peek`: the front thread of the highest bucket that holds one. */
    method Peek(ghost some: nat) returns (t: int)
      requires Valid() && some < n && |q[some]| > 0
      ensures IsThread(t) && bias[t] < n && IsTop(q, bias[t]) && t == q[bias[t]][0]
    {
      assert Agrees(some);
      var bucket := bitmap.GetHighest(some);
      assert Agrees(bucket) && Bucket(bucket);
      forall c | bucket < c < |q| ensures |q[c]| == 0 { assert Agrees(c); }
      Anchor(links.next[..], links.prev[..], 0, [bucket] + q[bucket]);
      t := links.next[bucket];
      assert q[bucket][0] in q[bucket];
    }

    /** `sched_schedule_i`: the highest-priority thread that has waited longest, which goes
        to the back of its bucket. */
    method Schedule(ghost some: nat) returns (t: int)
      requires Valid() && some < n && |q[some]| > 0
      modifies links.next, links.prev, this`q, this`current
      ensures Valid() && IsThread(t) && current == t
      ensures IsTop(old(q), bias[t]) && t == old(q)[bias[t]][0]
      ensures Enabled(old(q), SchedOp.Schedule(bias[t])) && q == Step(old(q), SchedOp.Schedule(bias[t]))
    {
      t := Peek(some);
      current := t;
      ghost var q0 := q;
      QueueRotate(t);
      forall b: nat | b < n ensures Agrees(b) { assert old(Agrees(b)); }
      forall x | IsThread(x) ensures Referenced(x) {
        assert old(Referenced(x));
        assert x in q[bias[x]] <==> x in q0[bias[x]] by { RotatedMembers(q0[bias[t]], x); }
      }
    }

    /** `nthread_insert_i`. */
    method ThreadInsert(t: int)
      requires Valid() && IsThread(t) && ref[t] < UINT32_MAX
      modifies links.next, links.prev, bitmap`group, bitmap.bit, ref, this`q
      ensures Valid() && ref[..] == old(ref[..])[t := old(ref[t]) + 1]
      ensures bias[t] < n && (old(ref[t]) == 0 <==> t !in old(q)[bias[t]])
      ensures q == if old(ref[t]) == 0 then Queued(old(q), bias[t], t) else old(q)
    {
      assert Referenced(t);
      ghost var q0 := q;
      if ref[t] == 0 {
        QueueInsert(t);
      }
      ref[t] := ref[t] + 1;
      forall x | IsThread(x) ensures Referenced(x) { assert old(Referenced(x)); }
      forall b: nat | b < n ensures Bucket(b) && Agrees(b) { assert old(Bucket(b) && Agrees(b)); }
    }

    /** `nthread_remove_i`. */
    method ThreadRemove(t: int)
      requires Valid() && IsThread(t) && ref[t] > 0
      modifies links.next, links.prev, bitmap`group, bitmap.bit, ref, this`q
      ensures Valid() && ref[..] == old(ref[..])[t := old(ref[t]) - 1]
      ensures bias[t] < n && t in old(q)[bias[t]]
      ensures q == if old(ref[t]) == 1 then Dequeued(old(q), bias[t], t) else old(q)
    {
      assert Referenced(t);
      ghost var q0 := q;
      ref[t] := ref[t] - 1;
      if ref[t] == 0 {
        assert Bucket(bias[t]);
        TailDistinct(bias[t], q0[bias[t]]);
        WithoutMembers(q0[bias[t]], Position(q0[bias[t]], t));
        QueueRemove(t);
      }
      forall x | IsThread(x) ensures Referenced(x) { assert old(Referenced(x)); }
    }
  }

  ghost predicate RingOf(next: seq<int>, prev: seq<int>, q: RunQueue, b: nat)
    requires b < |q|
  {
    Ring(next, prev, 0, [b] + q[b])
  }

  /** A node that links to itself is a ring of its own. */
  lemma SelfRing(next: seq<int>, prev: seq<int>, b: int)
    requires |next| == |prev| && 0 <= b < |next| && next[b] == b && prev[b] == b
    ensures Ring(next, prev, 0, [b])
  {
    assert LinkedAt(next, prev, 0, [b], 0);
  }

  lemma TailDistinct(b: int, s: seq<int>)
    requires Distinct([b] + s)
    ensures Distinct(s)
  {
    forall i, j | 0 <= i < j < |s| ensures s[i] != s[j] { assert ([b] + s)[i + 1] != ([b] + s)[j + 1]; }
  }

  lemma RotatedMembers(s: seq<int>, x: int)
    requires |s| > 0
    ensures x in s[1..] + [s[0]] <==> x in s
  {
    assert s == [s[0]] + s[1..];
  }
}

/** `queue.h`: a ring buffer of power-of-two size whose indices are reduced by masking. */
module RingBuffer {
  import opened Bits

  /** Unsigned 32-bit arithmetic on the index fields. */
  function Increment(x: nat): nat { (x + 1) % 0x1_0000_0000 }

  function Decrement(x: nat): nat { (x + 0xFFFF_FFFF) % 0x1_0000_0000 }

  /** Position `i` places after `tail` in a ring of `n` slots. */
  function Slot(tail: nat, i: nat, n: nat): nat {
    if tail + i < n then tail + i else tail + i - n
  }

  lemma MaskedIncrement(k: nat, x: nat)
    requires k <= 31 && x < Pow2(k)
    ensures And(Increment(x), Pow2(k) - 1) == if x + 1 < Pow2(k) then x + 1 else 0
  {
    Pow2Values();
    Pow2Monotone(k, 31);
    MaskIsLow(k, x + 1);
    LowWraps(k, x + 1);
  }

  /** The predecessor of 0 wraps around in 32 bits and is then masked to the last slot. */
  lemma MaskedDecrement(k: nat, x: nat)
    requires k <= 31 && x < Pow2(k)
    ensures And(Decrement(x), Pow2(k) - 1) == if x > 0 then x - 1 else Pow2(k) - 1
  {
    Pow2Values();
    Pow2Monotone(k, 31);
    if x > 0 {
      assert Decrement(x) == x - 1;
      MaskIsLow(k, x - 1);
      LowOfSmall(k, x - 1);
    } else {
      assert Decrement(x) == Pow2(32) - 1;
      MaskIsLow(k, Pow2(32) - 1);
      LowOfOnes(k, 32);
    }
  }

  /** `len` items from slot `tail` on, wrapping at the end of the buffer. */
  ghost function Window<T>(s: seq<T>, tail: nat, len: nat): seq<T>
    requires tail < |s| && len <= |s|
  {
    seq(len, i requires 0 <= i < len => s[Slot(tail, i, |s|)])
  }

  /** The source's index equation: the head is tail plus the number of items, masked. */
  lemma HeadIsMasked(k: nat, tail: nat, empty: nat)
    requires tail < Pow2(k) && empty <= Pow2(k)
    ensures And(tail + Pow2(k) - empty, Pow2(k) - 1) == Slot(tail, Pow2(k) - empty, Pow2(k))
  {
    MaskIsLow(k, tail + Pow2(k) - empty);
    if empty == 0 { LowWraps(k, tail + Pow2(k)); } else { LowWraps(k, tail + Pow2(k) - empty); }
  }

  class Queue<T(0)> {
    var head: nat
    var tail: nat
    var empty: nat            // free slots
    var mask: nat
    const buf: array<T>
    const k: nat              // the buffer has 2^k slots

    ghost predicate Valid()
      reads this
    {
      && 1 <= k <= 31 && buf.Length == Pow2(k) && mask == buf.Length - 1
      && tail < buf.Length && empty <= buf.Length && head == Slot(tail, buf.Length - empty, buf.Length)
    }

    /** The queued items, the next to leave first. */
    ghost function Contents(): seq<T>
      requires Valid()
      reads this, buf
    {
      Window(buf[..], tail, buf.Length - empty)
    }

    /** `nqueue_init` on a buffer of 2^k slots, any size the bundle macro accepts that fits
        the 32-bit `empty` field. */
    constructor (k: nat)
      requires 1 <= k <= 31
      ensures Valid() && Contents() == [] && buf.Length == Pow2(k) && fresh(buf)
    {
      this.k := k;
      buf := new T[Pow2(k)];
      head, tail := 0, 0;
      empty := Pow2(k);
      mask := Pow2(k) - 1;
    }

    /** `nqueue_is_full`. */
    predicate IsFull()
      reads this
    {
      empty == 0
    }

    /** `nqueue_is_empty`. */
    predicate IsEmpty()
      reads this
    {
      empty == mask + 1
    }

    lemma FullAndEmpty()
      requires Valid()
      ensures IsFull() <==> |Contents()| == buf.Length
      ensures IsEmpty() <==> Contents() == []
    {
    }

    /** `nqueue_put_fifo`. */
    method PutFifo(item: T)
      requires Valid() && !IsFull()
      modifies this`head, this`empty, buf
      ensures Valid() && Contents() == old(Contents()) + [item]
    {
      ghost var s, len := buf[..], buf.Length - empty;
      var slot := head;
      buf[slot] := item;
      head := Increment(slot);
      MaskedIncrement(k, slot);
      head := And(head, mask);
      empty := empty - 1;
      assert buf[..] == s[slot := item];
      assert Contents() == Window(s, tail, len) + [item];
    }

    /** `nqueue_put_lifo`. */
    method PutLifo(item: T)
      requires Valid() && !IsFull()
      modifies this`tail, this`empty, buf
      ensures Valid() && Contents() == [item] + old(Contents())
    {
      hide And, Pow2, Decrement;
      ghost var s, t, len := buf[..], tail, buf.Length - empty;
      MaskedDecrement(k, tail);
      tail := Decrement(tail);
      tail := And(tail, mask);
      buf[tail] := item;
      empty := empty - 1;
      assert buf[..] == s[tail := item];
      assert Contents() == [item] + Window(s, t, len);
    }

    /** `nqueue_get`. */
    method Get() returns (item: T)
      requires Valid() && !IsEmpty()
      modifies this`tail, this`empty
      ensures Valid() && old(Contents()) == [item] + Contents()
    {
      ghost var t, len := tail, buf.Length - empty;
      item := buf[tail];
      MaskedIncrement(k, tail);
      tail := Increment(tail);
      tail := And(tail, mask);
      empty := empty + 1;
      assert Window(buf[..], t, len) == [item] + Contents();
    }

    /** `nqueue_head`: the item put last by `nqueue_put_fifo`. */
    method Head() returns (item: T)
      requires Valid() && !IsEmpty()
      ensures item == Contents()[|Contents()| - 1]
    {
      MaskedDecrement(k, head);
      var realHead := Decrement(head);
      realHead := And(realHead, mask);
      item := buf[realHead];
    }

    /** `nqueue_tail`: the item that leaves next. */
    method Tail() returns (item: T)
      requires Valid() && !IsEmpty()
      ensures item == Contents()[0]
    {
      item := buf[tail];
    }
  }
}

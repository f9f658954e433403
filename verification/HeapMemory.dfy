/** `heap_init_alloc`, `heap_alloc` and `heap_free` over the words of one region. */
module HeapMemory {
  import opened Bits
  import opened DList
  import opened HeapLayout
  import opened HeapTheorems
  import opened Heap
  import opened Options

  // ---- writes stay out of live payloads ----

  /** Only headers in `hs` and the link slots of blocks in `ls` differ. */
  ghost predicate WritesOnly(p: int, hs: set<int>, ls: set<int>, w0: seq<int>, w1: seq<int>, v0: seq<int>,
                             v1: seq<int>) {
    && |w0| == |w1| == |v0| == |v1|
    && forall x | 0 <= x < |w0| && x !in hs && x - p !in ls :: v0[x] == w0[x] && v1[x] == w1[x]
  }

  /** The slot of `p` bytes at `x` overlaps the payload of a block that is live before and after. */
  ghost predicate KeptPayload(p: int, l: Layout, l': Layout, x: int)
    requires WF(p, l) && WF(p, l')
  {
    exists b :: IsLive(l, b) && IsLive(l', b) && CapacityAt(p, l, b) == CapacityAt(p, l', b)
                && b < x < b + p + CapacityAt(p, l, b)
  }

  /** No slot that overlaps such a payload has changed. */
  ghost predicate PayloadsKept(p: int, l: Layout, l': Layout, w0: seq<int>, w1: seq<int>, v0: seq<int>, v1: seq<int>) {
    && WF(p, l) && WF(p, l') && |w0| == |w1| == |v0| == |v1|
    && forall x | 0 <= x < |w0| && KeptPayload(p, l, l', x) :: v0[x] == w0[x] && v1[x] == w1[x]
  }

  lemma PayloadClear(p: int, l: Layout, b: int, x: int, y: int)
    requires WF(p, l) && IsLive(l, b) && b < x < b + p + CapacityAt(p, l, b) && y in l.blocks
    ensures x != y && (y != b ==> x != y + p)
  {
    if y != b {
      LiveDisjoint(p, l, b, y);
      var i: int := BlockIndex(p, l, b);
      var j: int := IndexOf(l.blocks, y);
      if j < i { Ordered(p, l.blocks, j, i); }
      if i < j { Ordered(p, l.blocks, i, j); }
    }
  }

  /** Writes to headers and to the links of blocks that are not live on both sides leave
      every live payload as it was. */
  lemma PayloadKept(p: int, l: Layout, l': Layout, hs: set<int>, ls: set<int>,
                    w0: seq<int>, w1: seq<int>, v0: seq<int>, v1: seq<int>)
    requires WF(p, l) && WF(p, l') && WritesOnly(p, hs, ls, w0, w1, v0, v1)
    requires forall y | y in hs || y in ls :: y in l.blocks || y in l'.blocks
    requires forall y | y in ls :: !IsLive(l, y) || !IsLive(l', y)
    ensures PayloadsKept(p, l, l', w0, w1, v0, v1)
  {
    forall x | 0 <= x < |w0| && KeptPayload(p, l, l', x) ensures v0[x] == w0[x] && v1[x] == w1[x] {
      var b :| IsLive(l, b) && IsLive(l', b) && CapacityAt(p, l, b) == CapacityAt(p, l', b)
               && b < x < b + p + CapacityAt(p, l, b);
      forall y | y in hs || y in ls ensures x != y && (y in ls ==> x != y + p) {
        if y in l.blocks { PayloadClear(p, l, b, x, y); } else { PayloadClear(p, l', b, x, y); }
      }
    }
  }

  lemma SplitKeepsPayload(p: int, l: Layout, n: int, k: nat, i: nat, nx: int, pv: int,
                          w0: seq<int>, w1: seq<int>, v0: seq<int>, v1: seq<int>)
    requires Splits(p, l, n, k, i) && RingNeighbours(l, k, nx, pv)
    requires SplitWords(p, n, l.blocks[i], Capacity(p, l, i), l.blocks[i + 1], nx, pv, w0, w1, v0, v1)
    ensures PayloadsKept(p, l, Split(p, l, n, k), w0, w1, v0, v1)
  {
    hide PayloadsKept, Distinct, Separated, Split;
    var l', t := Split(p, l, n, k), l.blocks[i] + n + p;
    SplitMembers(p, l, n, k);
    SplitWF(p, l, n, k);
    var hs, ls := {l.blocks[i], t, l.blocks[i + 1]}, {t, nx, pv};
    assert WritesOnly(p, hs, ls, w0, w1, v0, v1);
    RingNotLive(l, k, nx, pv);
    PayloadKept(p, l, l', hs, ls, w0, w1, v0, v1);
  }

  lemma GrantKeepsPayload(p: int, l: Layout, k: nat, i: nat, nx: int, pv: int,
                          w0: seq<int>, w1: seq<int>, v0: seq<int>, v1: seq<int>)
    requires WF(p, l) && i + 1 < |l.blocks| && RingNeighbours(l, k, nx, pv)
    requires GrantWords(p, l.blocks[i], Capacity(p, l, i), nx, pv, w0, w1, v0, v1)
    ensures PayloadsKept(p, l, Grant(l, k), w0, w1, v0, v1)
  {
    GrantWF(p, l, k);
    RingNotLive(l, k, nx, pv);
    assert WritesOnly(p, {l.blocks[i]}, {nx, pv}, w0, w1, v0, v1);
    PayloadKept(p, l, Grant(l, k), {l.blocks[i]}, {nx, pv}, w0, w1, v0, v1);
  }

  /** The neighbours in the ring are free blocks or the sentinel. */
  lemma RingNotLive(l: Layout, k: nat, nx: int, pv: int)
    requires RingNeighbours(l, k, nx, pv)
    ensures !IsLive(l, nx) && !IsLive(l, pv)
  {
    var r := FreeRing(l);
    assert nx in r && pv in r;
  }

  /** When the search stops at free position `j`, that block is the one `Alloc` takes. */
  lemma AllocTakes(p: int, l: Layout, n: int, j: nat)
    requires WF(p, l) && j < |l.free| && FirstFit(p, l, n, 0) == FirstFit(p, l, n, j)
    ensures l.free[j] in l.free
    ensures var c := CapacityAt(p, l, l.free[j]);
            && (c >= n ==> Alloc(p, l, n) ==
                           (if c > n + 2 * p then Split(p, l, n, j) else Grant(l, j), Some(l.free[j])))
            && (c < n ==> FirstFit(p, l, n, 0) == FirstFit(p, l, n, j + 1))
  {
    assert l.free[j] in l.free;
  }

  lemma AnchorWord(p: int, l: Layout, w0: seq<int>, w1: seq<int>)
    requires Represents(p, l, w0, w1)
    ensures 0 <= Sentinel(l) && Sentinel(l) + p < |w0|
    ensures w0[Sentinel(l) + p] == if |l.free| > 0 then l.free[0] else Sentinel(l)
    ensures forall j | 0 <= j < |l.free| :: l.free[j] != Sentinel(l)
    ensures var nx := w0[Sentinel(l) + p]; nx == After(FreeRing(l), 0) && 0 <= nx <= Sentinel(l) && nx in l.blocks
  {
    if |l.free| > 0 { assert l.free[0] in l.free; HeaderRange(p, l, l.free[0]); }
    forall j | 0 <= j < |l.free| ensures l.free[j] != Sentinel(l) { assert l.free[j] in l.free; }
    Anchor(w0, w1, p, FreeRing(l));
    HeaderRange(p, l, Sentinel(l));
  }

  /** The addresses written by the two branches do not collide. */
  lemma SplitClear(p: int, l: Layout, n: int, j: nat, i: nat, nx: int)
    requires WF(p, l) && n >= p && j < |l.free| && CapacityAt(p, l, l.free[j]) > n + 2 * p && nx in l.blocks
    requires i + 1 < |l.blocks| && l.blocks[i] == l.free[j] && IndexOf(l.blocks, l.free[j]) == i && IsFree(l, i)
    ensures Splits(p, l, n, j, i)
    ensures nx != l.free[j] + n + p && nx != l.free[j] + n
  {
    var i' := SplitShape(p, l, n, j);
    SplitMembers(p, l, n, j);
    LinkNotHeader(p, Split(p, l, n, j).blocks, l.free[j] + n + p, nx);
  }

  lemma GrantClear(p: int, l: Layout, j: nat, nx: int, pv: int)
    requires WF(p, l) && RingNeighbours(l, j, nx, pv)
    ensures nx != l.free[j] && pv != l.free[j] && nx + p != l.free[j]
  {
    var r := FreeRing(l);
    assert l.free[j] in l.free && r[j + 1] == l.free[j];
    assert After(r, j + 1) in r && r[j] in r;
    LinkNotHeader(p, l.blocks, l.free[j], nx);
    assert Distinct(l.free);
  }

  // ---- facts for heap_free ----

  /** What the words around a live block say, and how the branch tests read them. */
  lemma LiveBlockWords(p: int, l: Layout, w0: seq<int>, w1: seq<int>, i: int)
    requires Represents(p, l, w0, w1) && 0 <= i && i + 1 < |l.blocks| && IsLive(l, l.blocks[i])
    ensures var a := l.blocks[i];
            && Frees(p, l, i) && 0 <= a && a + p < |w0|
            && w1[a] == -Capacity(p, l, i) && l.blocks[i + 1] == a - w1[a] + p && w0[a] == PrevWord(l, i)
            && w0[a] in l.blocks && w0[a] != a && l.blocks[i + 1] != a
    ensures forall o | 0 <= o < |l.blocks| :: 0 <= l.blocks[o] < |w0| - p
    ensures var q := w0[l.blocks[i]];
            if IsFree(l, i - 1) then q == l.blocks[i - 1] && w1[q] == Capacity(p, l, i - 1) && w1[q] > 0 else w1[q] < 0
    ensures var b := l.blocks[i + 1];
            if IsFree(l, i + 1) then w1[b] == Capacity(p, l, i + 1) && w1[b] > 0 && l.blocks[i + 2] == b + w1[b] + p
            else w1[b] < 0
  {
    forall o | 0 <= o < |l.blocks| ensures 0 <= l.blocks[o] < |w0| - p { HeaderRange(p, l, l.blocks[o]); }
    TilingDistinct(p, l.blocks);
    assert HeaderAt(p, l, w0, w1, i) && HeaderAt(p, l, w0, w1, i + 1) && Gap(p, l.blocks, i);
    if i > 0 {
      assert HeaderAt(p, l, w0, w1, i - 1) && Gap(p, l.blocks, i - 1);
    } else {
      assert HeaderAt(p, l, w0, w1, |l.blocks| - 1);
    }
    if i + 2 < |l.blocks| { assert Gap(p, l.blocks, i + 1); }
  }

  lemma FreeKeepsPayload(p: int, l: Layout, a: int, hs: set<int>, ls: set<int>,
                         w0: seq<int>, w1: seq<int>, v0: seq<int>, v1: seq<int>)
    requires WF(p, l) && IsLive(l, a) && WorksOn(l, a, hs, ls) && WritesOnly(p, hs, ls, w0, w1, v0, v1)
    ensures PayloadsKept(p, l, Free(p, l, a), w0, w1, v0, v1)
  {
    FreeWF(p, l, a);
    PayloadKept(p, l, Free(p, l, a), hs, ls, w0, w1, v0, v1);
  }

  /** The headers written are headers, and the links written belong to the freed block, to
      free blocks or to the sentinel. */
  ghost predicate WorksOn(l: Layout, a: int, hs: set<int>, ls: set<int>) {
    && (forall y | y in hs || y in ls :: y in l.blocks)
    && (forall y | y in ls :: y == a || !IsLive(l, y))
  }

  /** The ring neighbours of a free block, kept apart from a live block `a` and each other. */
  lemma SuccessorWords(p: int, l: Layout, w0: seq<int>, w1: seq<int>, a: int, b: int)
    requires Represents(p, l, w0, w1) && IsLive(l, a) && b in l.free
    ensures 0 <= b && b + p < |w0|
    ensures RingNeighbours(l, FreePos(l, b), w0[b + p], w1[b + p]) && InRange(w0, w1, p, w0[b + p], w1[b + p])
    ensures var nx, pv := w0[b + p], w1[b + p];
            && nx != a && pv != a && pv != b && !IsLive(l, nx) && !IsLive(l, pv)
            && forall h | h in l.blocks :: h != nx + p && h != pv + p && h != a + p && h != b + p
  {
    var kk := FreePos(l, b);
    var j := FreeBlockWords(p, l, w0, w1, kk);
    var nx, pv := w0[b + p], w1[b + p];
    RingNotLive(l, kk, nx, pv);
    GrantClear(p, l, kk, nx, pv);
    forall h | h in l.blocks ensures h != nx + p && h != pv + p && h != a + p && h != b + p {
      LinkNotHeader(p, l.blocks, h, nx);
      LinkNotHeader(p, l.blocks, h, pv);
      LinkNotHeader(p, l.blocks, h, a);
      LinkNotHeader(p, l.blocks, h, b);
    }
  }

  lemma FreePrevDone(p: int, l: Layout, i: int, w0: seq<int>, w1: seq<int>, v0: seq<int>, v1: seq<int>)
    requires Frees(p, l, i) && Represents(p, l, w0, w1) && IsFree(l, i - 1) && !IsFree(l, i + 1)
    requires forall o | 0 <= o < |l.blocks| :: 0 <= l.blocks[o] < |w0| - p
    requires PrevWords(p, l.blocks[i], Capacity(p, l, i), l.blocks[i - 1], Capacity(p, l, i - 1), l.blocks[i + 1],
                       w0, w1, v0, v1)
    ensures Represents(p, Free(p, l, l.blocks[i]), v0, v1)
    ensures PayloadsKept(p, l, Free(p, l, l.blocks[i]), w0, w1, v0, v1)
  {
    FreePrevRepresents(p, l, i, w0, w1, v0, v1);
    FreeKeepsPayload(p, l, l.blocks[i], {l.blocks[i - 1], l.blocks[i], l.blocks[i + 1]}, {}, w0, w1, v0, v1);
  }

  lemma FreeNextDone(p: int, l: Layout, i: int, nx: int, pv: int, w0: seq<int>, w1: seq<int>, v0: seq<int>,
                     v1: seq<int>)
    requires Frees(p, l, i) && Represents(p, l, w0, w1) && !IsFree(l, i - 1) && IsFree(l, i + 1)
    requires forall o | 0 <= o < |l.blocks| :: 0 <= l.blocks[o] < |w0| - p
    requires RingNeighbours(l, FreePos(l, l.blocks[i + 1]), nx, pv)
    requires NextWords(p, l.blocks[i], Capacity(p, l, i), Capacity(p, l, i + 1), l.blocks[i + 2],
                       nx, pv, w0, w1, v0, v1)
    ensures Represents(p, Free(p, l, l.blocks[i]), v0, v1)
    ensures PayloadsKept(p, l, Free(p, l, l.blocks[i]), w0, w1, v0, v1)
  {
    hide Represents, Free, Tiling, PayloadsKept, Distinct;
    FreeNextRepresents(p, l, i, nx, pv, w0, w1, v0, v1);
    RingNotLive(l, FreePos(l, l.blocks[i + 1]), nx, pv);
    FreeKeepsPayload(p, l, l.blocks[i], {l.blocks[i], l.blocks[i + 2]}, {l.blocks[i], nx, pv}, w0, w1, v0, v1);
  }

  lemma FreeBothDone(p: int, l: Layout, i: int, nx: int, pv: int, w0: seq<int>, w1: seq<int>, v0: seq<int>,
                     v1: seq<int>)
    requires Frees(p, l, i) && Represents(p, l, w0, w1) && IsFree(l, i - 1) && IsFree(l, i + 1)
    requires forall o | 0 <= o < |l.blocks| :: 0 <= l.blocks[o] < |w0| - p
    requires RingNeighbours(l, FreePos(l, l.blocks[i + 1]), nx, pv)
    requires BothWords(p, l.blocks[i], Capacity(p, l, i), l.blocks[i - 1], Capacity(p, l, i - 1), Capacity(p, l, i + 1),
                       l.blocks[i + 2], nx, pv, w0, w1, v0, v1)
    ensures Represents(p, Free(p, l, l.blocks[i]), v0, v1)
    ensures PayloadsKept(p, l, Free(p, l, l.blocks[i]), w0, w1, v0, v1)
  {
    hide Represents, Free, Tiling, PayloadsKept, Distinct;
    FreeBothRepresents(p, l, i, nx, pv, w0, w1, v0, v1);
    RingNotLive(l, FreePos(l, l.blocks[i + 1]), nx, pv);
    FreeKeepsPayload(p, l, l.blocks[i], {l.blocks[i - 1], l.blocks[i], l.blocks[i + 2]}, {nx, pv}, w0, w1, v0, v1);
  }

  lemma FreeNoneDone(p: int, l: Layout, i: int, nx: int, w0: seq<int>, w1: seq<int>, v0: seq<int>, v1: seq<int>)
    requires Frees(p, l, i) && Represents(p, l, w0, w1) && !IsFree(l, i - 1) && !IsFree(l, i + 1)
    requires forall o | 0 <= o < |l.blocks| :: 0 <= l.blocks[o] < |w0| - p
    requires nx == After(FreeRing(l), 0) && 0 <= nx <= Sentinel(l) && nx in l.blocks
    requires NoneWords(p, l.blocks[i], Capacity(p, l, i), Sentinel(l), nx, w0, w1, v0, v1)
    ensures Represents(p, Free(p, l, l.blocks[i]), v0, v1)
    ensures PayloadsKept(p, l, Free(p, l, l.blocks[i]), w0, w1, v0, v1)
  {
    FreeNoneRepresents(p, l, i, nx, w0, w1, v0, v1);
    assert nx in FreeRing(l);
    FreeKeepsPayload(p, l, l.blocks[i], {l.blocks[i]}, {l.blocks[i], nx, Sentinel(l)}, w0, w1, v0, v1);
  }

  lemma InitWF(k: nat, size: int)
    requires k <= 30 && size > 4 * Pow2(k)
    ensures WF(Pow2(k), InitLayout(size, Pow2(k)))
  {
    InitInv(k, size);
  }

  /** The words `heap_init_alloc` writes represent one free block and the sentinel. */
  lemma InitRepresents(k: nat, w0: seq<int>, w1: seq<int>)
    requires k <= 30 && |w0| == |w1| > 4 * Pow2(k)
    requires var p, s := Pow2(k), |w0| - 2 * Pow2(k);
             && w0[0] == s && w1[0] == s - p && w0[p] == s && w1[p] == s
             && w0[s] == 0 && w1[s] == -1 && w0[s + p] == 0 && w1[s + p] == 0
    ensures Represents(Pow2(k), InitLayout(|w0|, Pow2(k)), w0, w1)
  {
    hide Pow2, SessionInv, WF;
    var p, s, l := Pow2(k), |w0| - 2 * Pow2(k), InitLayout(|w0|, Pow2(k));
    assert WF(p, l) by { InitWF(k, |w0|); }
    assert IsFree(l, 0) by { assert l.free[0] == 0; }
    var r := FreeRing(l);
    assert r == [s, 0];
    assert LinkedAt(w0, w1, p, r, 0) && LinkedAt(w0, w1, p, r, 1);
    assert HeaderAt(p, l, w0, w1, 0) && HeaderAt(p, l, w0, w1, 1);
  }

  class HeapRegion {
    const k: nat              // headers are 2^k bytes
    const w0: array<int>      // first word of the slot at each address
    const w1: array<int>      // second word of the slot at each address
    var base: int             // heap_obj->base
    ghost var l: Layout

    ghost predicate Valid()
      reads this, w0, w1
    {
      && k <= 30 && w0 != w1 && w0.Length < INT32_MAX
      && Represents(Pow2(k), l, w0[..], w1[..]) && base == Sentinel(l)
    }

    /** The region before initialisation: `size` bytes of arbitrary words from address 0. */
    constructor (k: nat, size: nat)
      requires k <= 30
      ensures this.k == k && base == 0 && w0 != w1 && w0.Length == w1.Length == size && fresh(w0) && fresh(w1)
    {
      this.k := k;
      w0, w1 := new int[size], new int[size];
      base := 0;
      l := Layout([], []);
    }

    /** The headers of the two halves of a split block. */
    method WriteCut(p: int, curr: int, tmp: int, n: int)
      requires w0 != w1 && w0.Length == w1.Length && 0 <= curr < w0.Length && 0 <= tmp < w0.Length && curr != tmp
      modifies w0, w1
      ensures w0[..] == old(w0[..])[tmp := curr]
      ensures w1[..] == old(w1[..])[tmp := old(w1[curr]) - n - p][curr := -n]
    {
      w0[tmp] := curr;
      w1[tmp] := w1[curr];
      w1[tmp] := w1[tmp] - n;
      w1[tmp] := w1[tmp] - p;
      w1[curr] := n * -1;
    }

    /** The writes of the splitting branch of `heap_alloc`. */
    method WriteSplit(p: int, block: int, n: int, ghost c: int, ghost nx: int, ghost pv: int)
      requires InRange(w0[..], w1[..], p, nx, pv) && n >= p && 0 <= block && block + n + 3 * p <= c
               && c + p < w0.Length && w0 != w1
      requires w0[block + p] == nx && w1[block + p] == pv && c == block + w1[block] + p
      requires nx != block + n + p && nx + p != block + n + p
      modifies w0, w1
      ensures SplitWords(p, n, block, old(w1[block]), c, nx, pv, old(w0[..]), old(w1[..]), w0[..], w1[..])
    {
      var curr := block;
      var tmp := curr + n + p;
      WriteCut(p, curr, tmp, n);
      w0[tmp + p] := w0[curr + p];
      w1[tmp + p] := w1[curr + p];
      w1[w0[tmp + p] + p] := tmp;
      w0[w1[tmp + p] + p] := tmp;
      curr := tmp + w1[tmp] + p;
      w0[curr] := tmp;
    }

    /** The writes of the whole-block branch of `heap_alloc`. */
    method WriteGrant(p: int, curr: int, ghost nx: int, ghost pv: int)
      requires InRange(w0[..], w1[..], p, nx, pv) && 0 <= curr && curr + p < w0.Length && w0 != w1
      requires w0[curr + p] == nx && w1[curr + p] == pv && nx != curr && pv != curr && nx + p != curr
      modifies w0, w1
      ensures GrantWords(p, curr, old(w1[curr]), nx, pv, old(w0[..]), old(w1[..]), w0[..], w1[..])
    {
      w1[w0[curr + p] + p] := w1[curr + p];
      w0[w1[curr + p] + p] := w0[curr + p];
      w1[curr] := w1[curr] * -1;
    }

    /** The splitting branch for the block at free position `j`. */
    method SplitBlock(p: int, curr: int, n: int, ghost j: nat)
      requires Valid() && p == Pow2(k) && n >= p
      requires j < |l.free| && curr == l.free[j] && CapacityAt(p, l, curr) > n + 2 * p
      modifies w0, w1, this`l
      ensures Valid() && base == old(base) && l == Split(p, old(l), n, j)
      ensures PayloadsKept(p, old(l), l, old(w0[..]), old(w1[..]), w0[..], w1[..])
    {
      ghost var u0, u1 := w0[..], w1[..];
      ghost var i := FreeBlockWords(p, l, u0, u1, j);
      ghost var nx, pv := w0[curr + p], w1[curr + p];
      SplitClear(p, l, n, j, i, nx);
      WriteSplit(p, curr, n, l.blocks[i + 1], nx, pv);
      SplitRepresents(p, l, n, j, i, nx, pv, u0, u1, w0[..], w1[..]);
      SplitKeepsPayload(p, l, n, j, i, nx, pv, u0, u1, w0[..], w1[..]);
      SplitWF(p, l, n, j);
      l := Split(p, l, n, j);
    }

    /** The whole-block branch for the block at free position `j`. */
    method GrantBlock(p: int, curr: int, ghost j: nat)
      requires Valid() && p == Pow2(k) && j < |l.free| && curr == l.free[j]
      modifies w0, w1, this`l
      ensures Valid() && base == old(base) && l == Grant(old(l), j)
      ensures PayloadsKept(p, old(l), l, old(w0[..]), old(w1[..]), w0[..], w1[..])
    {
      ghost var u0, u1 := w0[..], w1[..];
      ghost var i := FreeBlockWords(p, l, u0, u1, j);
      ghost var nx, pv := w0[curr + p], w1[curr + p];
      GrantClear(p, l, j, nx, pv);
      WriteGrant(p, curr, nx, pv);
      GrantRepresents(p, l, j, i, nx, pv, u0, u1, w0[..], w1[..]);
      GrantKeepsPayload(p, l, j, i, nx, pv, u0, u1, w0[..], w1[..]);
      GrantWF(p, l, j);
      l := Grant(l, j);
    }

    /** The search loop of `heap_alloc`: the first block that fits, else the sentinel. */
    method FirstFitBlock(p: int, n: int) returns (curr: int, ghost j: nat)
      requires Valid() && p == Pow2(k) && p <= n && (n <= INT32_MAX || l.free == [])
      ensures 0 <= curr < w1.Length
      ensures curr == base ==> Alloc(p, l, n) == (l, None)
      ensures curr != base ==>
                && j < |l.free| && curr == l.free[j] && curr in l.free
                && n <= w1[curr] == CapacityAt(p, l, curr) <= w1.Length - 3 * p
                && Alloc(p, l, n) == (if w1[curr] > n + 2 * p then Split(p, l, n, j) else Grant(l, j), Some(curr))
    {
      hide Split, Grant, Ring, FirstFit, Tiling, Separated;
      var sentinel := base;
      AnchorWord(p, l, w0[..], w1[..]);
      curr := w0[sentinel + p];
      j := 0;
      while curr != sentinel
        invariant j <= |l.free| && curr == if j < |l.free| then l.free[j] else base
        invariant FirstFit(p, l, n, 0) == FirstFit(p, l, n, j)
        decreases |l.free| - j
      {
        ghost var i := FreeBlockWords(p, l, w0[..], w1[..], j);
        AllocTakes(p, l, n, j);
        if w1[curr] >= ToInt32(n) {
          return;
        }
        curr := w0[curr + p];
        j := j + 1;
      }
    }

    /** The allocating branch of `heap_alloc` for the block found at free position `j`. */
    method TakeBlock(p: int, curr: int, n: int, ghost j: nat)
      requires Valid() && p == Pow2(k) && p <= n && n + 2 * p <= INT32_MAX
      requires j < |l.free| && curr == l.free[j] && 0 <= curr < w1.Length && w1[curr] == CapacityAt(p, l, curr)
      modifies w0, w1, this`l
      ensures Valid() && base == old(base)
      ensures l == if old(w1[curr]) > n + 2 * p then Split(p, old(l), n, j) else Grant(old(l), j)
      ensures PayloadsKept(p, old(l), l, old(w0[..]), old(w1[..]), w0[..], w1[..])
    {
      if w1[curr] > ToInt32(n + 2 * p) {
        SplitBlock(p, curr, n, j);
      } else {
        GrantBlock(p, curr, j);
      }
    }

    /** `heap_alloc`; 0 is NULL. */
    method HeapAlloc(size: nat) returns (mem: int)
      requires Valid() && 0 < size < INT32_MAX && (size <= INT32_MAX + 1 - Pow2(k) || l.free == [])
      modifies w0, w1, this`l
      ensures Valid() && base == old(base)
      ensures var (l', r) := Alloc(Pow2(k), old(l), Rounded(k, size));
              l == l' && mem == (if r.Some? then r.value + Pow2(k) else 0)
      ensures PayloadsKept(Pow2(k), old(l), l, old(w0[..]), old(w1[..]), w0[..], w1[..])
    {
      var p := Pow2(k);
      var n := Rounded(k, size);
      RoundedBounds(k, size);
      var curr, j := FirstFitBlock(p, n);
      mem := 0;
      if curr != base {
        mem := curr + p;
        TakeBlock(p, curr, n, j);
      }
    }

    // The four branches of `heap_free`. Each starts after the sign of the freed block's
    // size has been flipped; `u1` is the second-word memory before that.

    method WriteFreePrev(p: int, curr: int, tmp: int, ghost u1: seq<int>, ghost cap: int)
      requires w0 != w1 && w0.Length == w1.Length == |u1| && 0 <= curr < w0.Length && 0 <= tmp < w0.Length
      requires 0 <= w0[curr] < w0.Length && w0[curr] != curr && tmp != curr && w1[..] == u1[curr := cap]
      modifies w0, w1
      ensures PrevWords(p, curr, cap, old(w0[curr]), u1[old(w0[curr])], tmp, old(w0[..]), u1, w0[..], w1[..])
    {
      w1[w0[curr]] := w1[w0[curr]] + w1[curr];
      w1[w0[curr]] := w1[w0[curr]] + p;
      w0[tmp] := w0[curr];
    }

    method WriteFreeNext(p: int, curr: int, block: int, ghost u1: seq<int>, ghost cap: int, ghost d: int,
                         ghost nx: int, ghost pv: int)
      requires w0 != w1 && InRange(w0[..], u1, p, nx, pv) && w1.Length == w0.Length
      requires 0 <= curr && curr + p < w0.Length && 0 <= block && block + p < w0.Length
      requires w1[..] == u1[curr := cap] && w0[block + p] == nx && w1[block + p] == pv
      requires nx != curr && pv != curr && nx + p != curr && block != curr && block + p != curr && block != nx + p
               && block != curr + p
      requires 0 <= d < w0.Length && d == curr + cap + u1[block] + 2 * p
      modifies w0, w1
      ensures NextWords(p, curr, cap, u1[block], d, nx, pv, old(w0[..]), u1, w0[..], w1[..])
    {
      var tmp := block;
      w0[curr + p] := w0[tmp + p];
      w1[curr + p] := w1[tmp + p];
      w0[w1[curr + p] + p] := curr;
      w1[w0[curr + p] + p] := curr;
      w1[curr] := w1[curr] + w1[tmp];
      w1[curr] := w1[curr] + p;
      tmp := curr + w1[curr] + p;
      w0[tmp] := curr;
    }

    method WriteFreeBoth(p: int, curr: int, block: int, ghost u1: seq<int>, ghost cap: int, ghost q: int,
                         ghost d: int, ghost nx: int, ghost pv: int)
      requires w0 != w1 && InRange(w0[..], u1, p, nx, pv) && w1.Length == w0.Length
      requires 0 <= curr < w0.Length && 0 <= block && block + p < w0.Length && 0 <= q < w0.Length
      requires w1[..] == u1[curr := cap] && w0[block + p] == nx && w1[block + p] == pv && w0[curr] == q
      requires q != curr && block != curr && q != block && pv + p != curr && pv + p != block + p
      requires nx + p != q && nx + p != curr && nx + p != block
      requires 0 <= d < w0.Length && d == q + u1[q] + cap + u1[block] + 3 * p
      modifies w0, w1
      ensures BothWords(p, curr, cap, q, u1[q], u1[block], d, nx, pv, old(w0[..]), u1, w0[..], w1[..])
    {
      var tmp := block;
      w0[w1[tmp + p] + p] := w0[tmp + p];
      w1[w0[tmp + p] + p] := w1[tmp + p];
      w1[w0[curr]] := w1[w0[curr]] + w1[curr] + w1[tmp];
      w1[w0[curr]] := w1[w0[curr]] + 2 * p;
      tmp := w0[curr] + w1[w0[curr]] + p;
      w0[tmp] := w0[curr];
    }

    method WriteFreeNone(p: int, curr: int, ghost u1: seq<int>, ghost cap: int, ghost nx: int)
      requires w0 != w1 && InRange(w0[..], u1, p, nx, base) && w1.Length == w0.Length
      requires 0 <= curr && curr + p < w0.Length && w1[..] == u1[curr := cap]
      requires w0[base + p] == nx && base != curr
      modifies w0, w1
      ensures NoneWords(p, curr, cap, base, nx, old(w0[..]), u1, w0[..], w1[..])
    {
      var sentinel := base;
      w0[curr + p] := w0[sentinel + p];
      w1[curr + p] := sentinel;
      w0[w1[curr + p] + p] := curr;
      w1[w0[curr + p] + p] := curr;
    }

    /** Inside `heap_free`: only the sign of the freed block's size has been flipped. */
    ghost predicate Flipped(p: int, i: int, u0: seq<int>, u1: seq<int>)
      reads this, w0, w1
    {
      && w0 != w1 && w0.Length == w1.Length == |u0| && Represents(p, l, u0, u1) && base == Sentinel(l)
      && Frees(p, l, i) && 0 <= l.blocks[i] < |u0|
      && w0[..] == u0 && w1[..] == u1[l.blocks[i] := Capacity(p, l, i)]
    }

    /** The branch is complete: the words represent the layout without the block. */
    ghost predicate Freed(p: int, i: int, u0: seq<int>, u1: seq<int>)
      requires Frees(p, l, i)
      reads this, w0, w1
    {
      && Represents(p, Free(p, l, l.blocks[i]), w0[..], w1[..])
      && PayloadsKept(p, l, Free(p, l, l.blocks[i]), u0, u1, w0[..], w1[..])
    }

    method FreeIntoPrev(p: int, curr: int, tmp: int, ghost i: int, ghost u0: seq<int>, ghost u1: seq<int>)
      requires Flipped(p, i, u0, u1) && curr == l.blocks[i] && tmp == l.blocks[i + 1] && IsFree(l, i - 1)
               && !IsFree(l, i + 1)
      modifies w0, w1
      ensures Freed(p, i, u0, u1)
    {
      LiveBlockWords(p, l, u0, u1, i);
      WriteFreePrev(p, curr, tmp, u1, Capacity(p, l, i));
      FreePrevDone(p, l, i, u0, u1, w0[..], w1[..]);
    }

    method FreeWithNext(p: int, curr: int, tmp: int, ghost i: int, ghost u0: seq<int>, ghost u1: seq<int>)
      requires Flipped(p, i, u0, u1) && curr == l.blocks[i] && tmp == l.blocks[i + 1] && !IsFree(l, i - 1)
               && IsFree(l, i + 1)
      modifies w0, w1
      ensures Freed(p, i, u0, u1)
    {
      LiveBlockWords(p, l, u0, u1, i);
      SuccessorWords(p, l, u0, u1, curr, tmp);
      ghost var nx, pv := u0[tmp + p], u1[tmp + p];
      WriteFreeNext(p, curr, tmp, u1, Capacity(p, l, i), l.blocks[i + 2], nx, pv);
      FreeNextDone(p, l, i, nx, pv, u0, u1, w0[..], w1[..]);
    }

    method FreeBetween(p: int, curr: int, tmp: int, ghost i: int, ghost u0: seq<int>, ghost u1: seq<int>)
      requires Flipped(p, i, u0, u1) && curr == l.blocks[i] && tmp == l.blocks[i + 1] && IsFree(l, i - 1)
               && IsFree(l, i + 1)
      modifies w0, w1
      ensures Freed(p, i, u0, u1)
    {
      LiveBlockWords(p, l, u0, u1, i);
      Ordered(p, l.blocks, i - 1, i + 1);
      SuccessorWords(p, l, u0, u1, curr, tmp);
      ghost var nx, pv := u0[tmp + p], u1[tmp + p];
      WriteFreeBoth(p, curr, tmp, u1, Capacity(p, l, i), l.blocks[i - 1], l.blocks[i + 2], nx, pv);
      FreeBothDone(p, l, i, nx, pv, u0, u1, w0[..], w1[..]);
    }

    method FreeAlone(p: int, curr: int, ghost i: int, ghost u0: seq<int>, ghost u1: seq<int>)
      requires Flipped(p, i, u0, u1) && curr == l.blocks[i] && !IsFree(l, i - 1) && !IsFree(l, i + 1)
      modifies w0, w1
      ensures Freed(p, i, u0, u1)
    {
      LiveBlockWords(p, l, u0, u1, i);
      AnchorWord(p, l, u0, u1);
      ghost var nx := u0[base + p];
      WriteFreeNone(p, curr, u1, Capacity(p, l, i), nx);
      FreeNoneDone(p, l, i, nx, u0, u1, w0[..], w1[..]);
    }

    /** The four-way branch of `heap_free` on the neighbours' signs. */
    method Coalesce(p: int, curr: int, ghost i: int, ghost u0: seq<int>, ghost u1: seq<int>)
      requires Flipped(p, i, u0, u1) && curr == l.blocks[i]
      modifies w0, w1
      ensures Freed(p, i, u0, u1)
    {
      LiveBlockWords(p, l, u0, u1, i);
      var tmp := curr + w1[curr] + p;
      if w1[w0[curr]] > 0 && w1[tmp] < 0 {
        FreeIntoPrev(p, curr, tmp, i, u0, u1);
      } else if w1[w0[curr]] < 0 && w1[tmp] > 0 {
        FreeWithNext(p, curr, tmp, i, u0, u1);
      } else if w1[w0[curr]] > 0 && w1[tmp] > 0 {
        FreeBetween(p, curr, tmp, i, u0, u1);
      } else {
        FreeAlone(p, curr, i, u0, u1);
      }
    }

    /** `heap_free`. */
    method HeapFree(mem: int)
      requires Valid() && IsLive(l, mem - Pow2(k))
      modifies w0, w1, this`l
      ensures Valid() && base == old(base)
      ensures l == Free(Pow2(k), old(l), mem - Pow2(k))
      ensures PayloadsKept(Pow2(k), old(l), l, old(w0[..]), old(w1[..]), w0[..], w1[..])
    {
      hide Free, PayloadsKept, Ring, Tiling;
      var p := Pow2(k);
      var curr := mem - p;
      ghost var u0, u1 := w0[..], w1[..];
      ghost var i := BlockIndex(p, l, curr);
      LiveBlockWords(p, l, u0, u1, i);
      w1[curr] := w1[curr] * -1;
      assert Flipped(p, i, u0, u1);
      Coalesce(p, curr, i, u0, u1);
      FreeWF(p, l, curr);
      l := Free(p, l, curr);
    }

    /** `heap_init_alloc` up to the first allocation: one free block and the sentinel. */
    method HeapInit()
      requires k <= 30 && w0 != w1 && w0.Length == w1.Length && base == 0
      requires w0.Length > 4 * Pow2(k) && w0.Length < INT32_MAX
      modifies w0, w1, this
      ensures Valid() && l == InitLayout(w0.Length, Pow2(k)) && base == w0.Length - 2 * Pow2(k)
    {
      var p := Pow2(k);
      var sentinel := base + w0.Length - 2 * p;
      var begin := base;
      w1[begin] := w0.Length;
      w1[begin] := w1[begin] - 2 * p;
      w1[begin] := w1[begin] - p;
      w0[begin] := sentinel;
      w0[begin + p] := sentinel;
      w1[begin + p] := sentinel;
      w1[sentinel] := -1;
      w0[sentinel] := begin;
      w0[sentinel + p] := begin;
      w1[sentinel + p] := begin;
      base := sentinel;
      l := InitLayout(w0.Length, p);
      InitRepresents(k, w0[..], w1[..]);
    }

    /** `heap_init_alloc`. */
    method HeapInitAlloc(size: nat) returns (mem: int)
      requires k <= 30 && w0 != w1 && w0.Length == w1.Length && base == 0
      requires w0.Length > 4 * Pow2(k) && w0.Length < INT32_MAX
      requires 0 < size <= INT32_MAX + 1 - Pow2(k) && size < INT32_MAX
      modifies w0, w1, this
      ensures Valid() && WF(Pow2(k), InitLayout(w0.Length, Pow2(k)))
      ensures var (l', r) := Alloc(Pow2(k), InitLayout(w0.Length, Pow2(k)), Rounded(k, size));
              l == l' && mem == (if r.Some? then r.value + Pow2(k) else 0)
    {
      HeapInit();
      mem := HeapAlloc(size);
    }
  }
}

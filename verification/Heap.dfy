/** The heap in memory: `phy` headers and free-list links overlaid on one region, changed
    in place exactly where the allocator writes. */
module Heap {
  import opened Bits
  import opened DList
  import opened HeapLayout
  import opened HeapTheorems

  // ---- words and layout ----

  /** `phy.size` of the `i`-th block: negative when used, -1 for the sentinel. */
  ghost function SizeWord(p: int, l: Layout, i: nat): int
    requires i < |l.blocks|
  {
    if i + 1 == |l.blocks| then -1
    else if IsFree(l, i) then Capacity(p, l, i) else -Capacity(p, l, i)
  }

  /** `phy.prev` of the `i`-th block: its physical predecessor, cyclically. */
  ghost function PrevWord(l: Layout, i: nat): int
    requires i < |l.blocks|
  {
    if i == 0 then Sentinel(l) else l.blocks[i - 1]
  }

  ghost predicate HeaderAt(p: int, l: Layout, w0: seq<int>, w1: seq<int>, i: nat)
    requires i < |l.blocks|
  {
    && 0 <= l.blocks[i] < |w0| && |w0| == |w1|
    && w0[l.blocks[i]] == PrevWord(l, i) && w1[l.blocks[i]] == SizeWord(p, l, i)
  }

  ghost function FreeRing(l: Layout): seq<int>
    requires |l.blocks| > 0
  {
    [Sentinel(l)] + l.free
  }

  /** `w0` and `w1` hold the first and second word of the `p`-byte slot at each address: at
      a header `phy.prev` and `phy.size`, one slot further `free.next` and `free.prev`. */
  ghost predicate Represents(p: int, l: Layout, w0: seq<int>, w1: seq<int>) {
    && WF(p, l)
    && |w0| == |w1| == Sentinel(l) + 2 * p
    && (forall i: nat | i < |l.blocks| :: HeaderAt(p, l, w0, w1, i))
    && Ring(w0, w1, p, FreeRing(l))
  }

  lemma LinkNotHeader(p: int, blocks: seq<int>, h: int, x: int)
    requires Tiling(p, blocks) && h in blocks && x in blocks
    ensures h != x + p
  {
    var i: int, j: int := IndexOf(blocks, h), IndexOf(blocks, x);
    if i < j { Ordered(p, blocks, i, j); }
    if j < i { Ordered(p, blocks, j, i); }
  }

  /** Writes at header addresses leave every node's links alone. */
  lemma LinksKept(p: int, l: Layout, hs: set<int>, w0: seq<int>, w1: seq<int>, v0: seq<int>, v1: seq<int>, x: int)
    requires Tiling(p, l.blocks) && x in l.blocks && (forall h | h in hs :: h in l.blocks)
    requires |w0| == |w1| == |v0| == |v1| == Sentinel(l) + 2 * p
    requires forall y | 0 <= y < |w0| && y !in hs :: v0[y] == w0[y] && v1[y] == w1[y]
    ensures SameLinks(w0, w1, v0, v1, p, x)
  {
    HeaderRange(p, l, x);
    if x + p in hs { LinkNotHeader(p, l.blocks, x + p, x); }
  }

  lemma KeepRing(p: int, l: Layout, hs: set<int>, w0: seq<int>, w1: seq<int>, v0: seq<int>, v1: seq<int>)
    requires Tiling(p, l.blocks) && (forall h | h in hs :: h in l.blocks) && (forall a | a in l.free :: a in l.blocks)
    requires |w0| == |w1| == |v0| == |v1| == Sentinel(l) + 2 * p
    requires forall y | 0 <= y < |w0| && y !in hs :: v0[y] == w0[y] && v1[y] == w1[y]
    requires Ring(w0, w1, p, FreeRing(l))
    ensures Ring(v0, v1, p, FreeRing(l))
  {
    forall x | x in FreeRing(l) ensures SameLinks(w0, w1, v0, v1, p, x) {
      LinksKept(p, l, hs, w0, w1, v0, v1, x);
    }
    RingFrame(w0, w1, v0, v1, p, FreeRing(l));
  }

  lemma HeaderRange(p: int, l: Layout, x: int)
    requires Tiling(p, l.blocks) && x in l.blocks
    ensures 0 <= x <= Sentinel(l)
  {
    var i: int := IndexOf(l.blocks, x);
    if i > 0 { Ordered(p, l.blocks, 0, i); }
    if i < |l.blocks| - 1 { Ordered(p, l.blocks, i, |l.blocks| - 1); }
  }

  /** `nx` and `pv` are the ring neighbours of the block at free position `k`. */
  ghost predicate RingNeighbours(l: Layout, k: nat, nx: int, pv: int) {
    && |l.blocks| > 0 && k < |l.free| && nx == After(FreeRing(l), k + 1) && pv == FreeRing(l)[k]
    && 0 <= nx <= Sentinel(l) && 0 <= pv <= Sentinel(l) && nx in l.blocks && pv in l.blocks
  }

  /** What the words of the block at free position `k` say. */
  lemma FreeBlockWords(p: int, l: Layout, w0: seq<int>, w1: seq<int>, k: nat) returns (i: nat)
    requires Represents(p, l, w0, w1) && k < |l.free|
    ensures i + 1 < |l.blocks| && l.blocks[i] == l.free[k] && IndexOf(l.blocks, l.free[k]) == i && IsFree(l, i)
    ensures var a, c := l.free[k], l.blocks[i + 1];
            && a in l.free && 0 <= a && a + 2 * p <= c <= Sentinel(l)
            && w1[a] == CapacityAt(p, l, a) && a + w1[a] + p == c
            && RingNeighbours(l, k, w0[a + p], w1[a + p])
  {
    var a, r := l.free[k], FreeRing(l);
    assert a in l.free;
    i := BlockIndex(p, l, a);
    assert HeaderAt(p, l, w0, w1, i) && Gap(p, l.blocks, i);
    assert r[k + 1] == a;
    Neighbours(w0, w1, p, r, k + 1);
    assert After(r, k + 1) in r && r[k] in r;
    HeaderRange(p, l, a);
    HeaderRange(p, l, l.blocks[i + 1]);
    HeaderRange(p, l, After(r, k + 1));
    HeaderRange(p, l, r[k]);
  }

  // ---- what each branch writes ----

  ghost predicate InRange(w0: seq<int>, w1: seq<int>, p: int, nx: int, pv: int) {
    p > 0 && |w0| == |w1| && 0 <= nx && nx + p < |w0| && 0 <= pv && pv + p < |w0|
  }

  /** Splitting `n` bytes off the block at `a`, whose successor is at `c`. */
  ghost predicate SplitWords(p: int, n: int, a: int, cap: int, c: int, nx: int, pv: int,
                             w0: seq<int>, w1: seq<int>, v0: seq<int>, v1: seq<int>)
  {
    && InRange(w0, w1, p, nx, pv) && n >= p && 0 <= a && a + n + 3 * p <= c && c + p < |w0|
    && var t := a + n + p;
    && v0 == w0[t := a][t + p := nx][pv + p := t][c := t]
    && v1 == w1[t := cap - n - p][a := -n][t + p := pv][nx + p := t]
  }

  /** Unlinking the block at `a` and marking it used. */
  ghost predicate GrantWords(p: int, a: int, cap: int, nx: int, pv: int,
                             w0: seq<int>, w1: seq<int>, v0: seq<int>, v1: seq<int>)
  {
    && InRange(w0, w1, p, nx, pv) && 0 <= a < |w0|
    && v0 == w0[pv + p := nx] && v1 == w1[nx + p := pv][a := -cap]
  }

  /** Growing the free block at `q` over the block at `a`; `b` follows. */
  ghost predicate PrevWords(p: int, a: int, cap: int, q: int, qcap: int, b: int,
                            w0: seq<int>, w1: seq<int>, v0: seq<int>, v1: seq<int>)
  {
    && |w0| == |w1| && 0 <= a < |w0| && 0 <= q < |w0| && 0 <= b < |w0|
    && v0 == w0[b := q] && v1 == w1[a := cap][q := qcap + cap + p]
  }

  /** The block at `a` taking the ring place of its free successor; `d` follows both. */
  ghost predicate NextWords(p: int, a: int, cap: int, bcap: int, d: int, nx: int, pv: int,
                            w0: seq<int>, w1: seq<int>, v0: seq<int>, v1: seq<int>)
  {
    && InRange(w0, w1, p, nx, pv) && 0 <= a && a + p < |w0| && 0 <= d < |w0|
    && v0 == w0[a + p := nx][pv + p := a][d := a]
    && v1 == w1[a := cap][a + p := pv][nx + p := a][a := cap + bcap + p]
  }

  /** Growing the free block at `q` over the block at `a` and its free successor, which
      leaves the ring; `d` follows. */
  ghost predicate BothWords(p: int, a: int, cap: int, q: int, qcap: int, bcap: int, d: int, nx: int, pv: int,
                            w0: seq<int>, w1: seq<int>, v0: seq<int>, v1: seq<int>)
  {
    && InRange(w0, w1, p, nx, pv) && 0 <= a < |w0| && 0 <= q < |w0| && 0 <= d < |w0|
    && v0 == w0[pv + p := nx][d := q]
    && v1 == w1[a := cap][nx + p := pv][q := qcap + cap + bcap + 2 * p]
  }

  /** Linking the block at `a` in behind the sentinel at `s`. */
  ghost predicate NoneWords(p: int, a: int, cap: int, s: int, nx: int,
                            w0: seq<int>, w1: seq<int>, v0: seq<int>, v1: seq<int>)
  {
    && InRange(w0, w1, p, nx, s) && 0 <= a && a + p < |w0|
    && v0 == w0[a + p := nx][s + p := a] && v1 == w1[a := cap][a + p := s][nx + p := a]
  }

  // ---- the two ways to allocate ----

  /** The block at free position `k` has index `i` and is worth splitting for `n` bytes. */
  ghost predicate Splits(p: int, l: Layout, n: int, k: nat, i: nat) {
    && WF(p, l) && k < |l.free| && n >= p
    && i + 1 < |l.blocks| && l.blocks[i] == l.free[k] && IndexOf(l.blocks, l.free[k]) == i && IsFree(l, i)
    && Capacity(p, l, i) > n + 2 * p
  }

  /** What the words of one header must be after the split: the block at `a` is used with `n` bytes,
      the new one behind it has the rest, and the next one points back to the new one. */
  lemma SplitSpec(p: int, l: Layout, n: int, k: nat, i: nat, j: nat)
    requires Splits(p, l, n, k, i) && j < |Split(p, l, n, k).blocks|
    ensures var l', t := Split(p, l, n, k), l.blocks[i] + n + p;
            var o := if j <= i then j else j - 1;
            && o < |l.blocks| && l'.blocks[j] == (if j == i + 1 then t else l.blocks[o])
            && PrevWord(l', j) == (if j == i + 1 then l.blocks[i] else if j == i + 2 then t else PrevWord(l, o))
            && SizeWord(p, l', j) ==
               if j == i then -n else if j == i + 1 then Capacity(p, l, i) - n - p else SizeWord(p, l, o)
  {
    hide Separated, Distinct;
    SplitMembers(p, l, n, k);
    var i' := SplitShape(p, l, n, k);
    if j < i { Ordered(p, l.blocks, j, i); }
    if j > i + 1 { Ordered(p, l.blocks, i, j - 1); }
  }

  /** Header words after the split, at one header. */
  lemma SplitHeader(p: int, l: Layout, n: int, k: nat, i: nat, w0: seq<int>, w1: seq<int>,
                    v0: seq<int>, v1: seq<int>, j: nat)
    requires Splits(p, l, n, k, i) && Represents(p, l, w0, w1) && |v0| == |v1| == |w0|
    requires j < |Split(p, l, n, k).blocks|
    requires 0 <= l.free[k] && l.blocks[i + 1] <= Sentinel(l)
    requires var h, a, t := Split(p, l, n, k).blocks[j], l.blocks[i], l.blocks[i] + n + p;
             && 0 <= h < |w0|
             && v0[h] == (if h == l.blocks[i + 1] then t else if h == t then a else w0[h])
             && v1[h] == (if h == a then -n else if h == t then Capacity(p, l, i) - n - p else w1[h])
    ensures HeaderAt(p, Split(p, l, n, k), v0, v1, j)
  {
    hide Ring, Separated, Distinct, Split, PrevWord, SizeWord;
    SplitSpec(p, l, n, k, i, j);
    SplitMembers(p, l, n, k);
    var o := if j <= i then j else j - 1;
    assert HeaderAt(p, l, w0, w1, o);
    if o < i { Ordered(p, l.blocks, o, i); }
    if o > i { Ordered(p, l.blocks, i, o); }
    if o > i + 1 { Ordered(p, l.blocks, i + 1, o); }
    assert l.blocks[o] in l.blocks;
  }

  /** A new block takes the place of the one at free position `k` in the ring. */
  lemma ReplaceInRing(w0: seq<int>, w1: seq<int>, p: int, s: int, free: seq<int>, k: nat, t: int, nx: int, pv: int)
    requires Ring(w0, w1, p, [s] + free) && k < |free| && t !in [s] + free && 0 <= t + p < |w0|
    requires nx == After([s] + free, k + 1) && pv == ([s] + free)[k]
    ensures 0 <= nx + p < |w0| && 0 <= pv + p < |w0|
    ensures Ring(w0[t + p := nx][pv + p := t], w1[t + p := pv][nx + p := t], p, [s] + free[k := t])
  {
    var r := [s] + free;
    RingReplace(w0, w1, p, r, k + 1, t);
    assert r[k + 1 := t] == [s] + free[k := t];
  }

  /** The block at free position `k` leaves the ring. */
  lemma RemoveInRing(w0: seq<int>, w1: seq<int>, p: int, s: int, free: seq<int>, k: nat, nx: int, pv: int)
    requires Ring(w0, w1, p, [s] + free) && k < |free|
    requires nx == After([s] + free, k + 1) && pv == ([s] + free)[k]
    ensures 0 <= nx + p < |w0| && 0 <= pv + p < |w0|
    ensures Ring(w0[pv + p := nx], w1[nx + p := pv], p, [s] + Without(free, k))
  {
    var r := [s] + free;
    RingRemove(w0, w1, p, r, k + 1);
    assert Without(r, k + 1) == [s] + Without(free, k);
  }

  /** A block enters the ring right behind the sentinel. */
  lemma PushInRing(w0: seq<int>, w1: seq<int>, p: int, s: int, free: seq<int>, a: int, nx: int)
    requires Ring(w0, w1, p, [s] + free) && a !in [s] + free && 0 <= a + p < |w0|
    requires nx == After([s] + free, 0)
    ensures 0 <= nx + p < |w0| && 0 <= s + p < |w0|
    ensures Ring(w0[a + p := nx][s + p := a], w1[a + p := s][nx + p := a], p, [s] + ([a] + free))
  {
    var r := [s] + free;
    RingInsert(w0, w1, p, r, 1, a);
    assert WithAt(r, 1, a) == [s] + ([a] + free);
  }

  lemma SplitRing(p: int, l: Layout, n: int, k: nat, i: nat, nx: int, pv: int,
                  w0: seq<int>, w1: seq<int>, v0: seq<int>, v1: seq<int>)
    requires Splits(p, l, n, k, i) && Represents(p, l, w0, w1)
    requires l.blocks[i + 1] <= Sentinel(l) && RingNeighbours(l, k, nx, pv)
    requires SplitWords(p, n, l.blocks[i], Capacity(p, l, i), l.blocks[i + 1], nx, pv, w0, w1, v0, v1)
    ensures |v0| == |v1| == |w0| && Ring(v0, v1, p, FreeRing(Split(p, l, n, k)))
  {
    SplitMembers(p, l, n, k);
    var l', t := Split(p, l, n, k), l.blocks[i] + n + p;
    ReplaceInRing(w0, w1, p, Sentinel(l), l.free, k, t, nx, pv);
    var u0, u1 := w0[t + p := nx][pv + p := t], w1[t + p := pv][nx + p := t];
    assert l.blocks[i] in l.blocks && l.blocks[i + 1] in l.blocks;
    assert FreeRing(l') == [Sentinel(l)] + l.free[k := t];
    assert Ring(u0, u1, p, FreeRing(l'));
    assert forall y | 0 <= y < |u0| && y !in {l.blocks[i], t, l.blocks[i + 1]} :: v0[y] == u0[y];
    assert forall y | 0 <= y < |u0| && y !in {l.blocks[i], t, l.blocks[i + 1]} :: v1[y] == u1[y];
    KeepRing(p, l', {l.blocks[i], t, l.blocks[i + 1]}, u0, u1, v0, v1);
  }

  /** The writes of the splitting branch turn one representation into the next. */
  lemma SplitRepresents(p: int, l: Layout, n: int, k: nat, i: nat, nx: int, pv: int,
                        w0: seq<int>, w1: seq<int>, v0: seq<int>, v1: seq<int>)
    requires Splits(p, l, n, k, i) && Represents(p, l, w0, w1)
    requires l.blocks[i + 1] <= Sentinel(l) && RingNeighbours(l, k, nx, pv)
    requires SplitWords(p, n, l.blocks[i], Capacity(p, l, i), l.blocks[i + 1], nx, pv, w0, w1, v0, v1)
    ensures Represents(p, Split(p, l, n, k), v0, v1)
  {
    SplitWF(p, l, n, k);
    SplitRing(p, l, n, k, i, nx, pv, w0, w1, v0, v1);
    SplitMembers(p, l, n, k);
    var l', t := Split(p, l, n, k), l.blocks[i] + n + p;
    forall j: nat | j < |l'.blocks| ensures HeaderAt(p, l', v0, v1, j) {
      var h := l'.blocks[j];
      LinkNotHeader(p, l'.blocks, h, t);
      LinkNotHeader(p, l'.blocks, h, nx);
      LinkNotHeader(p, l'.blocks, h, pv);
      HeaderRange(p, l', h);
      SplitHeader(p, l, n, k, i, w0, w1, v0, v1, j);
    }
  }

  /** The writes of the whole-block branch: unlink, then flip the sign of the size. */
  lemma GrantRepresents(p: int, l: Layout, k: nat, i: nat, nx: int, pv: int,
                        w0: seq<int>, w1: seq<int>, v0: seq<int>, v1: seq<int>)
    requires Represents(p, l, w0, w1) && k < |l.free|
    requires i + 1 < |l.blocks| && l.blocks[i] == l.free[k] && IsFree(l, i) && 0 <= l.blocks[i]
    requires l.blocks[i] + 2 * p <= Sentinel(l) && RingNeighbours(l, k, nx, pv)
    requires GrantWords(p, l.blocks[i], Capacity(p, l, i), nx, pv, w0, w1, v0, v1)
    ensures Represents(p, Grant(l, k), v0, v1)
  {
    var l' := Grant(l, k);
    GrantWF(p, l, k);
    WithoutMembers(l.free, k);
    RemoveInRing(w0, w1, p, Sentinel(l), l.free, k, nx, pv);
    KeepRing(p, l', {l.blocks[i]}, v0, w1[nx + p := pv], v0, v1);
    TilingDistinct(p, l.blocks);
    forall j: nat | j < |l'.blocks| ensures HeaderAt(p, l', v0, v1, j) {
      var h := l'.blocks[j];
      LinkNotHeader(p, l.blocks, h, nx);
      LinkNotHeader(p, l.blocks, h, pv);
      assert HeaderAt(p, l, w0, w1, j);
    }
  }

  // ---- the four ways to free ----

  /** Indices of the merged block's header and of the header that follows it. */
  ghost function MergeLo(l: Layout, i: int): int {
    if IsFree(l, i - 1) then i - 1 else i
  }

  ghost function MergeHi(l: Layout, i: int): int {
    if IsFree(l, i + 1) then i + 2 else i + 1
  }

  ghost predicate Frees(p: int, l: Layout, i: int) {
    WF(p, l) && 0 <= i && MergeHi(l, i) < |l.blocks| && IsLive(l, l.blocks[i])
  }

  /** All four branches leave the headers in the same state: the merged block carries the
      whole size and the header behind it points back to it. */
  ghost predicate MergedHeaders(p: int, l: Layout, i: int, w0: seq<int>, w1: seq<int>, v0: seq<int>, v1: seq<int>,
                                o: int)
    requires Frees(p, l, i) && 0 <= o < |l.blocks|
  {
    var h, m, nh := l.blocks[o], l.blocks[MergeLo(l, i)], l.blocks[MergeHi(l, i)];
    && |w0| == |w1| == |v0| == |v1| && 0 <= h < |w0|
    && v0[h] == (if h == nh then m else w0[h])
    && v1[h] == (if h == m then nh - m - p else w1[h])
  }

  lemma OriginSteps(p: int, l: Layout, i: int, j: int)
    requires Frees(p, l, i) && 0 <= j < |Free(p, l, l.blocks[i]).blocks|
    ensures 0 <= Origin(l, i, j) < |l.blocks|
    ensures j == 0 <==> Origin(l, i, j) == 0
    ensures j > 0 ==>
              Origin(l, i, j - 1) == if Origin(l, i, j) == MergeHi(l, i) then MergeLo(l, i) else Origin(l, i, j) - 1
    ensures j + 1 == |Free(p, l, l.blocks[i]).blocks| <==> Origin(l, i, j) + 1 == |l.blocks|
    ensures Origin(l, i, j) <= MergeLo(l, i) || MergeHi(l, i) <= Origin(l, i, j)
  {
    IndexUnique(p, l.blocks, i);
  }

  lemma FreedPrev(p: int, l: Layout, i: int, j: int)
    requires Frees(p, l, i) && 0 <= j < |Free(p, l, l.blocks[i]).blocks| && 0 <= Origin(l, i, j) < |l.blocks|
    ensures PrevWord(Free(p, l, l.blocks[i]), j) ==
              if Origin(l, i, j) == MergeHi(l, i) then l.blocks[MergeLo(l, i)] else PrevWord(l, Origin(l, i, j))
  {
    FreeBlocks(p, l, i);
    OriginSteps(p, l, i, j);
    if j > 0 { FreeShape(p, l, i, j - 1); }
  }

  lemma FreedIsFree(p: int, l: Layout, i: int, j: int)
    requires Frees(p, l, i) && 0 <= j < |Free(p, l, l.blocks[i]).blocks| && 0 <= Origin(l, i, j) < |l.blocks|
    ensures IsFree(Free(p, l, l.blocks[i]), j) <==> IsFree(l, Origin(l, i, j)) || Origin(l, i, j) == MergeLo(l, i)
  {
    FreeList(p, l, i);
    OriginSteps(p, l, i, j);
    FreeShape(p, l, i, j);
    TilingDistinct(p, l.blocks);
    var o := Origin(l, i, j);
    assert l.blocks[o] == l.blocks[i] ==> o == i;
    assert l.blocks[o] == l.blocks[i + 1] ==> o == i + 1;
  }

  lemma FreedSize(p: int, l: Layout, i: int, j: int)
    requires Frees(p, l, i) && 0 <= j < |Free(p, l, l.blocks[i]).blocks| && 0 <= Origin(l, i, j) < |l.blocks|
    ensures SizeWord(p, Free(p, l, l.blocks[i]), j) ==
              if Origin(l, i, j) == MergeLo(l, i) then l.blocks[MergeHi(l, i)] - l.blocks[MergeLo(l, i)] - p
              else SizeWord(p, l, Origin(l, i, j))
  {
    FreedIsFree(p, l, i, j);
    OriginSteps(p, l, i, j);
    FreeShape(p, l, i, j);
    if j + 1 < |Free(p, l, l.blocks[i]).blocks| {
      FreeShape(p, l, i, j + 1);
      OriginSteps(p, l, i, j + 1);
    }
  }

  lemma FreedHeader(p: int, l: Layout, i: int, w0: seq<int>, w1: seq<int>, v0: seq<int>, v1: seq<int>, j: nat)
    requires Frees(p, l, i) && Represents(p, l, w0, w1)
    requires j < |Free(p, l, l.blocks[i]).blocks|
    requires 0 <= Origin(l, i, j) < |l.blocks| && MergedHeaders(p, l, i, w0, w1, v0, v1, Origin(l, i, j))
    ensures HeaderAt(p, Free(p, l, l.blocks[i]), v0, v1, j)
  {
    var o := Origin(l, i, j);
    FreedPrev(p, l, i, j);
    FreedSize(p, l, i, j);
    FreeShape(p, l, i, j);
    assert l.blocks[o] == l.blocks[MergeLo(l, i)] ==> o == MergeLo(l, i) by { TilingDistinct(p, l.blocks); }
    assert l.blocks[o] == l.blocks[MergeHi(l, i)] ==> o == MergeHi(l, i) by { TilingDistinct(p, l.blocks); }
    assert HeaderAt(p, l, w0, w1, o);
  }

  /** Once the ring is right and every remaining header is merged, the free is done. */
  lemma FreeRepresents(p: int, l: Layout, i: int, w0: seq<int>, w1: seq<int>, v0: seq<int>, v1: seq<int>)
    requires Frees(p, l, i) && Represents(p, l, w0, w1) && |v0| == |v1| == |w0|
    requires Ring(v0, v1, p, [Sentinel(l)] + Free(p, l, l.blocks[i]).free)
    requires forall o | 0 <= o < |l.blocks| && (o <= MergeLo(l, i) || MergeHi(l, i) <= o) ::
               MergedHeaders(p, l, i, w0, w1, v0, v1, o)
    ensures Represents(p, Free(p, l, l.blocks[i]), v0, v1)
  {
    FreeWF(p, l, l.blocks[i]);
    var l' := Free(p, l, l.blocks[i]);
    forall j: nat | j < |l'.blocks| ensures HeaderAt(p, l', v0, v1, j) {
      OriginSteps(p, l, i, j);
      assert MergedHeaders(p, l, i, w0, w1, v0, v1, Origin(l, i, j));
      FreedHeader(p, l, i, w0, w1, v0, v1, j);
    }
  }

  /** Free a block whose predecessor alone is free. */
  lemma FreePrevRepresents(p: int, l: Layout, i: int, w0: seq<int>, w1: seq<int>, v0: seq<int>, v1: seq<int>)
    requires Frees(p, l, i) && Represents(p, l, w0, w1) && IsFree(l, i - 1) && !IsFree(l, i + 1)
    requires forall o | 0 <= o < |l.blocks| :: 0 <= l.blocks[o] < |w0|
    requires PrevWords(p, l.blocks[i], Capacity(p, l, i), l.blocks[i - 1], Capacity(p, l, i - 1), l.blocks[i + 1],
                       w0, w1, v0, v1)
    ensures Represents(p, Free(p, l, l.blocks[i]), v0, v1)
  {
    IndexUnique(p, l.blocks, i);
    KeepRing(p, l, {l.blocks[i - 1], l.blocks[i], l.blocks[i + 1]}, w0, w1, v0, v1);
    TilingDistinct(p, l.blocks);
    forall o | 0 <= o < |l.blocks| && (o <= MergeLo(l, i) || MergeHi(l, i) <= o)
      ensures MergedHeaders(p, l, i, w0, w1, v0, v1, o)
    {
    }
    FreeRepresents(p, l, i, w0, w1, v0, v1);
  }

  lemma FreeNextRing(p: int, l: Layout, i: int, nx: int, pv: int,
                     w0: seq<int>, w1: seq<int>, v0: seq<int>, v1: seq<int>)
    requires Frees(p, l, i) && Represents(p, l, w0, w1) && !IsFree(l, i - 1) && IsFree(l, i + 1)
    requires RingNeighbours(l, FreePos(l, l.blocks[i + 1]), nx, pv)
    requires NextWords(p, l.blocks[i], Capacity(p, l, i), Capacity(p, l, i + 1), l.blocks[i + 2],
                       nx, pv, w0, w1, v0, v1)
    ensures Ring(v0, v1, p, [Sentinel(l)] + Free(p, l, l.blocks[i]).free)
  {
    hide Ring, Separated;
    var a, k := l.blocks[i], FreePos(l, l.blocks[i + 1]);
    IndexUnique(p, l.blocks, i);
    ReplaceInRing(w0, w1, p, Sentinel(l), l.free, k, a, nx, pv);
    var u0, u1 := w0[a + p := nx][pv + p := a], w1[a + p := pv][nx + p := a];
    FreeList(p, l, i);
    var lr := Layout(l.blocks, l.free[k := a]);
    assert FreeRing(lr) == [Sentinel(l)] + l.free[k := a];
    KeepRing(p, lr, {a, l.blocks[i + 2]}, u0, u1, v0, v1);
  }

  /** Free a block whose successor alone is free: it takes the successor's place in the ring. */
  lemma FreeNextRepresents(p: int, l: Layout, i: int, nx: int, pv: int,
                           w0: seq<int>, w1: seq<int>, v0: seq<int>, v1: seq<int>)
    requires Frees(p, l, i) && Represents(p, l, w0, w1) && !IsFree(l, i - 1) && IsFree(l, i + 1)
    requires forall o | 0 <= o < |l.blocks| :: 0 <= l.blocks[o] < |w0| - p
    requires RingNeighbours(l, FreePos(l, l.blocks[i + 1]), nx, pv)
    requires NextWords(p, l.blocks[i], Capacity(p, l, i), Capacity(p, l, i + 1), l.blocks[i + 2],
                       nx, pv, w0, w1, v0, v1)
    ensures Represents(p, Free(p, l, l.blocks[i]), v0, v1)
  {
    hide Ring, Separated, Free;
    var a := l.blocks[i];
    FreeNextRing(p, l, i, nx, pv, w0, w1, v0, v1);
    TilingDistinct(p, l.blocks);
    forall o | 0 <= o < |l.blocks| && (o <= MergeLo(l, i) || MergeHi(l, i) <= o)
      ensures MergedHeaders(p, l, i, w0, w1, v0, v1, o)
    {
      LinkNotHeader(p, l.blocks, l.blocks[o], a);
      LinkNotHeader(p, l.blocks, l.blocks[o], nx);
      LinkNotHeader(p, l.blocks, l.blocks[o], pv);
    }
    FreeRepresents(p, l, i, w0, w1, v0, v1);
  }

  lemma FreeBothRing(p: int, l: Layout, i: int, nx: int, pv: int,
                     w0: seq<int>, w1: seq<int>, v0: seq<int>, v1: seq<int>)
    requires Frees(p, l, i) && Represents(p, l, w0, w1) && IsFree(l, i - 1) && IsFree(l, i + 1)
    requires forall o | 0 <= o < |l.blocks| :: 0 <= l.blocks[o] < |w0| - p
    requires RingNeighbours(l, FreePos(l, l.blocks[i + 1]), nx, pv)
    requires BothWords(p, l.blocks[i], Capacity(p, l, i), l.blocks[i - 1], Capacity(p, l, i - 1), Capacity(p, l, i + 1),
                       l.blocks[i + 2], nx, pv, w0, w1, v0, v1)
    ensures Ring(v0, v1, p, [Sentinel(l)] + Free(p, l, l.blocks[i]).free)
  {
    hide Ring, Separated;
    var a, k := l.blocks[i], FreePos(l, l.blocks[i + 1]);
    IndexUnique(p, l.blocks, i);
    RemoveInRing(w0, w1, p, Sentinel(l), l.free, k, nx, pv);
    WithoutMembers(l.free, k);
    var lr := Layout(l.blocks, Without(l.free, k));
    assert FreeRing(lr) == [Sentinel(l)] + Without(l.free, k);
    KeepRing(p, lr, {l.blocks[i - 1], a, l.blocks[i + 2]}, w0[pv + p := nx], w1[nx + p := pv], v0, v1);
  }

  /** Free a block between two free ones: the successor leaves the ring. */
  lemma FreeBothRepresents(p: int, l: Layout, i: int, nx: int, pv: int,
                           w0: seq<int>, w1: seq<int>, v0: seq<int>, v1: seq<int>)
    requires Frees(p, l, i) && Represents(p, l, w0, w1) && IsFree(l, i - 1) && IsFree(l, i + 1)
    requires forall o | 0 <= o < |l.blocks| :: 0 <= l.blocks[o] < |w0| - p
    requires RingNeighbours(l, FreePos(l, l.blocks[i + 1]), nx, pv)
    requires BothWords(p, l.blocks[i], Capacity(p, l, i), l.blocks[i - 1], Capacity(p, l, i - 1), Capacity(p, l, i + 1),
                       l.blocks[i + 2], nx, pv, w0, w1, v0, v1)
    ensures Represents(p, Free(p, l, l.blocks[i]), v0, v1)
  {
    FreeBothRing(p, l, i, nx, pv, w0, w1, v0, v1);
    TilingDistinct(p, l.blocks);
    forall o | 0 <= o < |l.blocks| && (o <= MergeLo(l, i) || MergeHi(l, i) <= o)
      ensures MergedHeaders(p, l, i, w0, w1, v0, v1, o)
    {
      LinkNotHeader(p, l.blocks, l.blocks[o], nx);
      LinkNotHeader(p, l.blocks, l.blocks[o], pv);
    }
    FreeRepresents(p, l, i, w0, w1, v0, v1);
  }

  /** Free a block between two used ones: it enters the ring behind the sentinel. */
  lemma FreeNoneRepresents(p: int, l: Layout, i: int, nx: int,
                           w0: seq<int>, w1: seq<int>, v0: seq<int>, v1: seq<int>)
    requires Frees(p, l, i) && Represents(p, l, w0, w1) && !IsFree(l, i - 1) && !IsFree(l, i + 1)
    requires forall o | 0 <= o < |l.blocks| :: 0 <= l.blocks[o] < |w0| - p
    requires nx == After(FreeRing(l), 0) && 0 <= nx <= Sentinel(l) && nx in l.blocks
    requires NoneWords(p, l.blocks[i], Capacity(p, l, i), Sentinel(l), nx, w0, w1, v0, v1)
    ensures Represents(p, Free(p, l, l.blocks[i]), v0, v1)
  {
    var a, s := l.blocks[i], Sentinel(l);
    IndexUnique(p, l.blocks, i);
    PushInRing(w0, w1, p, s, l.free, a, nx);
    var lr := Layout(l.blocks, [a] + l.free);
    assert FreeRing(lr) == [s] + ([a] + l.free);
    assert HeaderAt(p, l, w0, w1, i + 1);
    KeepRing(p, lr, {a}, w0[a + p := nx][s + p := a], w1[a + p := s][nx + p := a], v0, v1);
    TilingDistinct(p, l.blocks);
    forall o | 0 <= o < |l.blocks| && (o <= MergeLo(l, i) || MergeHi(l, i) <= o)
      ensures MergedHeaders(p, l, i, w0, w1, v0, v1, o)
    {
      LinkNotHeader(p, l.blocks, l.blocks[o], a);
      LinkNotHeader(p, l.blocks, l.blocks[o], s);
      LinkNotHeader(p, l.blocks, l.blocks[o], nx);
    }
    FreeRepresents(p, l, i, w0, w1, v0, v1);
  }
}

/** What a heap region looks like, without memory words: the addresses of its block
    headers and the free list. `p` is the size of a `heap_phy` header in bytes. */
module HeapLayout {
  import opened Bits
  import opened DList
  import opened Options

  /** `blocks` lists every header in address order, the sentinel last; `free` is the
      free list from the sentinel's `next` on. */
  datatype Layout = Layout(blocks: seq<int>, free: seq<int>)

  /** Two consecutive headers leave room for a header and the two free-list links. */
  ghost predicate Gap(p: int, blocks: seq<int>, i: int)
    requires 0 <= i < |blocks| - 1
  {
    blocks[i] + 2 * p <= blocks[i + 1]
  }

  ghost predicate Tiling(p: int, blocks: seq<int>) {
    && p > 0 && |blocks| >= 2 && blocks[0] == 0
    && forall i | 0 <= i < |blocks| - 1 :: Gap(p, blocks, i)
  }

  lemma {:induction false} Ordered(p: int, blocks: seq<int>, i: int, j: int)
    requires Tiling(p, blocks) && 0 <= i < j < |blocks|
    ensures blocks[i] + 2 * p <= blocks[j]
    decreases j - i
  {
    assert Gap(p, blocks, j - 1);
    if i < j - 1 { Ordered(p, blocks, i, j - 1); }
  }

  lemma TilingDistinct(p: int, blocks: seq<int>)
    requires Tiling(p, blocks)
    ensures Distinct(blocks)
  {
    forall i, j | 0 <= i < j < |blocks| ensures blocks[i] != blocks[j] { Ordered(p, blocks, i, j); }
  }

  ghost function Sentinel(l: Layout): int
    requires |l.blocks| > 0
  {
    l.blocks[|l.blocks| - 1]
  }

  /** Is the `i`-th block on the free list? */
  ghost predicate IsFree(l: Layout, i: int) {
    0 <= i < |l.blocks| && l.blocks[i] in l.free
  }

  ghost predicate Separated(l: Layout, i: int) {
    !(IsFree(l, i) && IsFree(l, i + 1))
  }

  /** The free list holds headers of non-sentinel blocks, once each, and no two
      physically adjacent blocks are both on it. */
  ghost predicate WF(p: int, l: Layout) {
    && Tiling(p, l.blocks)
    && Distinct(l.free)
    && (forall a | a in l.free :: a in l.blocks && a != Sentinel(l))
    && (forall i | 0 <= i < |l.blocks| - 1 :: Separated(l, i))
  }

  /** Bytes a block offers behind its header. */
  ghost function Capacity(p: int, l: Layout, i: nat): int
    requires i + 1 < |l.blocks|
  {
    l.blocks[i + 1] - l.blocks[i] - p
  }

  lemma IndexUnique(p: int, blocks: seq<int>, i: nat)
    requires Tiling(p, blocks) && i < |blocks|
    ensures IndexOf(blocks, blocks[i]) == i
  {
    TilingDistinct(p, blocks);
  }

  ghost predicate IsLive(l: Layout, a: int) {
    |l.blocks| > 0 && a in l.blocks && a != Sentinel(l) && a !in l.free
  }

  /** Index of a block that is not the sentinel: it has a right neighbour. */
  lemma BlockIndex(p: int, l: Layout, a: int) returns (i: nat)
    requires Tiling(p, l.blocks) && a in l.blocks && a != Sentinel(l)
    ensures i + 1 < |l.blocks| && l.blocks[i] == a && IndexOf(l.blocks, a) == i
  {
    i := IndexOf(l.blocks, a);
  }

  ghost function CapacityAt(p: int, l: Layout, a: int): int
    requires Tiling(p, l.blocks) && a in l.blocks && a != Sentinel(l)
  {
    Capacity(p, l, IndexOf(l.blocks, a))
  }

  // ---- the operations ----

  ghost function InitLayout(size: int, p: int): Layout {
    Layout([0, size - 2 * p], [0])
  }

  /** Position in the free list, from `k` on, of the first block with room for `n`. */
  ghost function FirstFit(p: int, l: Layout, n: int, k: nat): (r: nat)
    requires WF(p, l) && k <= |l.free|
    ensures k <= r <= |l.free|
    decreases |l.free| - k
  {
    if k == |l.free| || CapacityAt(p, l, l.free[k]) >= n then k
    else FirstFit(p, l, n, k + 1)
  }

  /** Cut `n` bytes off the block at free position `k`; the rest stays free in place. */
  ghost function Split(p: int, l: Layout, n: int, k: nat): Layout
    requires WF(p, l) && k < |l.free|
  {
    var a := l.free[k];
    Layout(WithAt(l.blocks, IndexOf(l.blocks, a) + 1, a + n + p), l.free[k := a + n + p])
  }

  ghost function Grant(l: Layout, k: nat): Layout
    requires k < |l.free|
  {
    Layout(l.blocks, Without(l.free, k))
  }

  /** The header handed out, if any, and the layout afterwards. */
  ghost function Alloc(p: int, l: Layout, n: int): (Layout, Option<int>)
    requires WF(p, l)
  {
    var k := FirstFit(p, l, n, 0);
    if k == |l.free| then (l, None)
    else if CapacityAt(p, l, l.free[k]) > n + 2 * p then (Split(p, l, n, k), Some(l.free[k]))
    else (Grant(l, k), Some(l.free[k]))
  }

  /** Position of `a` in the free list. */
  ghost function FreePos(l: Layout, a: int): (k: nat)
    requires a in l.free
    ensures k < |l.free| && l.free[k] == a
  {
    IndexOf(l.free, a)
  }

  ghost function Free(p: int, l: Layout, a: int): Layout
    requires WF(p, l) && IsLive(l, a)
  {
    var i := IndexOf(l.blocks, a);
    if IsFree(l, i - 1) && !IsFree(l, i + 1) then
      Layout(Without(l.blocks, i), l.free)
    else if !IsFree(l, i - 1) && IsFree(l, i + 1) then
      Layout(Without(l.blocks, i + 1), l.free[FreePos(l, l.blocks[i + 1]) := a])
    else if IsFree(l, i - 1) && IsFree(l, i + 1) then
      Layout(Without(Without(l.blocks, i + 1), i), Without(l.free, FreePos(l, l.blocks[i + 1])))
    else
      Layout(l.blocks, [a] + l.free)
  }

  // ---- first fit is complete ----

  lemma {:induction false} FirstFitComplete(p: int, l: Layout, n: int, k: nat)
    requires WF(p, l) && k <= |l.free|
    ensures var r := FirstFit(p, l, n, k);
            && (r < |l.free| ==> CapacityAt(p, l, l.free[r]) >= n)
            && forall j | k <= j < r :: CapacityAt(p, l, l.free[j]) < n
    decreases |l.free| - k
  {
    if k < |l.free| && CapacityAt(p, l, l.free[k]) < n { FirstFitComplete(p, l, n, k + 1); }
  }

  /** Allocation fails exactly when no free block is large enough; otherwise it hands
      out the first one in free-list order that is. */
  lemma AllocComplete(p: int, l: Layout, n: int)
    requires WF(p, l)
    ensures Alloc(p, l, n).1 == None <==> forall a | a in l.free :: CapacityAt(p, l, a) < n
    ensures forall a | Alloc(p, l, n).1 == Some(a) ::
              exists k | 0 <= k < |l.free| :: && l.free[k] == a && CapacityAt(p, l, a) >= n
                                              && forall j | 0 <= j < k :: CapacityAt(p, l, l.free[j]) < n
  {
    FirstFitComplete(p, l, n, 0);
    var k := FirstFit(p, l, n, 0);
    if k < |l.free| {
      assert l.free[k] in l.free;
    } else {
      forall a | a in l.free ensures CapacityAt(p, l, a) < n {
        assert a == l.free[FreePos(l, a)];
      }
    }
  }

  // ---- the operations keep the layout well formed ----

  /** A new header fits between two that leave room for it. */
  lemma CutTiling(p: int, blocks: seq<int>, i: nat, t: int)
    requires Tiling(p, blocks) && i + 1 < |blocks| && blocks[i] + 2 * p <= t && t + 2 * p <= blocks[i + 1]
    ensures Tiling(p, WithAt(blocks, i + 1, t)) && t !in blocks
  {
    var b := WithAt(blocks, i + 1, t);
    forall j | 0 <= j < |b| - 1 ensures Gap(p, b, j) {
      if j < i { assert Gap(p, blocks, j) && b[j] == blocks[j] && b[j + 1] == blocks[j + 1]; }
      if j > i + 1 { assert Gap(p, blocks, j - 1) && b[j] == blocks[j - 1] && b[j + 1] == blocks[j]; }
    }
    forall j | 0 <= j < |blocks| ensures blocks[j] != t {
      if j > i + 1 { Ordered(p, blocks, i + 1, j); }
      if j < i { Ordered(p, blocks, j, i); }
    }
  }

  /** Where the blocks of a split layout sit. */
  lemma SplitShape(p: int, l: Layout, n: int, k: nat) returns (i: nat)
    requires WF(p, l) && k < |l.free| && n >= p && CapacityAt(p, l, l.free[k]) > n + 2 * p
    ensures i + 1 < |l.blocks| && l.blocks[i] == l.free[k] && IndexOf(l.blocks, l.free[k]) == i
    ensures Split(p, l, n, k).blocks == WithAt(l.blocks, i + 1, l.free[k] + n + p)
    ensures Tiling(p, Split(p, l, n, k).blocks)
    ensures l.free[k] + n + p !in l.blocks
  {
    assert l.free[k] in l.free;
    i := BlockIndex(p, l, l.free[k]);
    var t := l.free[k] + n + p;
    assert CapacityAt(p, l, l.free[k]) == l.blocks[i + 1] - l.blocks[i] - p;
    CutTiling(p, l.blocks, i, t);
  }

  lemma SplitMembers(p: int, l: Layout, n: int, k: nat)
    requires WF(p, l) && k < |l.free| && n >= p && CapacityAt(p, l, l.free[k]) > n + 2 * p
    ensures var a, t, l' := l.free[k], l.free[k] + n + p, Split(p, l, n, k);
            && Tiling(p, l'.blocks) && Distinct(l'.free) && Sentinel(l') == Sentinel(l)
            && (forall x :: x in l'.blocks <==> x in l.blocks || x == t)
            && (forall x :: x in l'.free <==> (x in l.free && x != a) || x == t)
            && t !in l.blocks && t != Sentinel(l)
  {
    var i := SplitShape(p, l, n, k);
    TilingDistinct(p, l.blocks);
    ReplacedMembers(l.free, k, l.free[k] + n + p);
    WithAtMembers(l.blocks, i + 1, l.free[k] + n + p);
  }

  lemma SplitWF(p: int, l: Layout, n: int, k: nat)
    requires WF(p, l) && k < |l.free| && n >= p && CapacityAt(p, l, l.free[k]) > n + 2 * p
    ensures WF(p, Split(p, l, n, k)) && Sentinel(Split(p, l, n, k)) == Sentinel(l)
    ensures forall x :: IsLive(Split(p, l, n, k), x) <==> IsLive(l, x) || x == l.free[k]
  {
    var a, t := l.free[k], l.free[k] + n + p;
    assert a in l.free;
    var i := SplitShape(p, l, n, k);
    SplitMembers(p, l, n, k);
    var l' := Split(p, l, n, k);
    forall j | 0 <= j < |l'.blocks| - 1 ensures Separated(l', j) {
      if j < i {
        assert l'.blocks[j] == l.blocks[j] && l'.blocks[j + 1] == l.blocks[j + 1];
        assert Separated(l, j);
      } else if j == i {
        assert l'.blocks[j] == a;
      } else if j == i + 1 {
        assert IsFree(l, i) && Separated(l, i) && l'.blocks[j + 1] == l.blocks[i + 1];
      } else {
        assert l'.blocks[j] == l.blocks[j - 1] && l'.blocks[j + 1] == l.blocks[j];
        assert Separated(l, j - 1);
      }
    }
  }

  lemma GrantWF(p: int, l: Layout, k: nat)
    requires WF(p, l) && k < |l.free|
    ensures WF(p, Grant(l, k)) && Sentinel(Grant(l, k)) == Sentinel(l)
    ensures forall x :: IsLive(Grant(l, k), x) <==> IsLive(l, x) || x == l.free[k]
  {
    WithoutMembers(l.free, k);
    assert l.free[k] in l.free;
    var l' := Grant(l, k);
    forall j | 0 <= j < |l'.blocks| - 1 ensures Separated(l', j) {
      assert Separated(l, j);
    }
  }

  lemma AllocWF(p: int, l: Layout, n: int)
    requires WF(p, l) && n >= p
    ensures WF(p, Alloc(p, l, n).0) && Sentinel(Alloc(p, l, n).0) == Sentinel(l)
    ensures match Alloc(p, l, n).1
            case None => Alloc(p, l, n).0 == l
            case Some(a) =>
              !IsLive(l, a) && forall x :: IsLive(Alloc(p, l, n).0, x) <==> IsLive(l, x) || x == a
  {
    FirstFitComplete(p, l, n, 0);
    var k := FirstFit(p, l, n, 0);
    if k < |l.free| {
      assert l.free[k] in l.free;
      if CapacityAt(p, l, l.free[k]) > n + 2 * p { SplitWF(p, l, n, k); } else { GrantWF(p, l, k); }
    }
  }

  /** Dropping a header between the first block and the sentinel. */
  lemma DropHeader(p: int, blocks: seq<int>, i: nat)
    requires Tiling(p, blocks) && 0 < i < |blocks| - 1
    ensures Tiling(p, Without(blocks, i))
    ensures Without(blocks, i)[|blocks| - 2] == blocks[|blocks| - 1]
    ensures forall x :: x in Without(blocks, i) <==> x in blocks && x != blocks[i]
  {
    TilingDistinct(p, blocks);
    WithoutMembers(blocks, i);
    var b := Without(blocks, i);
    forall j | 0 <= j < |b| - 1 ensures Gap(p, b, j) {
      assert Gap(p, blocks, j) && Gap(p, blocks, j + 1);
    }
  }

  /** What is a header once the block at index `i` is freed. */
  ghost predicate FreedBlocks(p: int, l: Layout, i: int, l': Layout)
    requires 0 <= i && i + 1 < |l.blocks|
  {
    var a, b := l.blocks[i], l.blocks[i + 1];
    && Tiling(p, l'.blocks) && Sentinel(l') == Sentinel(l)
    && forall x :: x in l'.blocks <==> x in l.blocks && !(x == a && IsFree(l, i - 1)) && !(x == b && IsFree(l, i + 1))
  }

  /** What is free once the block at index `i` is freed. */
  ghost predicate FreedList(l: Layout, i: int, l': Layout)
    requires 0 <= i && i + 1 < |l.blocks|
  {
    var a, b := l.blocks[i], l.blocks[i + 1];
    && Distinct(l'.free)
    && forall x :: x in l'.free <==> (x in l.free && x != b) || (x == a && !IsFree(l, i - 1))
  }

  lemma FreeBlocksBoth(p: int, l: Layout, i: int)
    requires Tiling(p, l.blocks) && 0 < i && i + 2 < |l.blocks|
    ensures var a, b, bs := l.blocks[i], l.blocks[i + 1], Without(Without(l.blocks, i + 1), i);
            && Tiling(p, bs) && bs[|bs| - 1] == Sentinel(l)
            && forall x :: x in bs <==> x in l.blocks && x != a && x != b
  {
    DropHeader(p, l.blocks, i + 1);
    var bs := Without(l.blocks, i + 1);
    assert bs[i] == l.blocks[i];
    DropHeader(p, bs, i);
  }

  lemma FreeBlocksOne(p: int, l: Layout, i: int)
    requires WF(p, l) && 0 <= i && i + 1 < |l.blocks| && IsLive(l, l.blocks[i])
    requires !IsFree(l, i + 1) || !IsFree(l, i - 1)
    ensures FreedBlocks(p, l, i, Free(p, l, l.blocks[i]))
  {
    IndexUnique(p, l.blocks, i);
    if IsFree(l, i + 1) {
      DropHeader(p, l.blocks, i + 1);
    } else if IsFree(l, i - 1) {
      DropHeader(p, l.blocks, i);
    }
  }

  lemma FreeBlocks(p: int, l: Layout, i: int)
    requires WF(p, l) && 0 <= i && i + 1 < |l.blocks| && IsLive(l, l.blocks[i])
    ensures FreedBlocks(p, l, i, Free(p, l, l.blocks[i]))
  {
    hide Tiling, Distinct, Separated;
    if IsFree(l, i + 1) && IsFree(l, i - 1) {
      IndexUnique(p, l.blocks, i);
      FreeBlocksBoth(p, l, i);
    } else {
      FreeBlocksOne(p, l, i);
    }
  }

  lemma FreeList(p: int, l: Layout, i: int)
    requires WF(p, l) && 0 <= i && i + 1 < |l.blocks| && IsLive(l, l.blocks[i])
    ensures FreedList(l, i, Free(p, l, l.blocks[i]))
  {
    var a, b := l.blocks[i], l.blocks[i + 1];
    IndexUnique(p, l.blocks, i);
    hide Tiling, Separated, Distinct;
    assert IsFree(l, i + 1) <==> b in l.free;
    assert a !in l.free;
    if !IsFree(l, i + 1) {
      if !IsFree(l, i - 1) {
        assert Free(p, l, a).free == WithAt(l.free, 0, a);
        WithAtMembers(l.free, 0, a);
      } else {
        assert Free(p, l, a).free == l.free;
      }
    } else if IsFree(l, i - 1) {
      WithoutMembers(l.free, FreePos(l, b));
      assert Free(p, l, a).free == Without(l.free, FreePos(l, b));
    } else {
      ReplacedMembers(l.free, FreePos(l, b), a);
      assert Free(p, l, a).free == l.free[FreePos(l, b) := a];
    }
  }

  lemma FreeMembers(p: int, l: Layout, a: int) returns (i: int)
    requires WF(p, l) && IsLive(l, a)
    ensures 0 <= i && i + 1 < |l.blocks| && l.blocks[i] == a && IndexOf(l.blocks, a) == i
    ensures FreedBlocks(p, l, i, Free(p, l, a)) && FreedList(l, i, Free(p, l, a))
  {
    i := BlockIndex(p, l, a);
    FreeBlocks(p, l, i);
    FreeList(p, l, i);
  }

  /** The index a header of the new layout had before the free: headers below the freed
      block stay in place, those above move down past the dropped ones. */
  ghost function Origin(l: Layout, i: int, j: int): int {
    if j < (if IsFree(l, i - 1) then i else i + 1) then j
    else j + (if IsFree(l, i - 1) then 1 else 0) + (if IsFree(l, i + 1) then 1 else 0)
  }

  lemma FreeShape(p: int, l: Layout, i: int, j: int)
    requires WF(p, l) && 0 <= i && i + 1 < |l.blocks| && IsLive(l, l.blocks[i])
    requires 0 <= j < |Free(p, l, l.blocks[i]).blocks|
    ensures 0 <= Origin(l, i, j) < |l.blocks|
    ensures Free(p, l, l.blocks[i]).blocks[j] == l.blocks[Origin(l, i, j)]
  {
    IndexUnique(p, l.blocks, i);
  }

  /** Nothing but the freed block becomes free. */
  lemma FreeOrigin(p: int, l: Layout, i: int, j: int)
    requires WF(p, l) && 0 <= i && i + 1 < |l.blocks| && IsLive(l, l.blocks[i])
    requires FreedList(l, i, Free(p, l, l.blocks[i]))
    requires 0 <= j < |Free(p, l, l.blocks[i]).blocks|
    ensures var l', o := Free(p, l, l.blocks[i]), Origin(l, i, j);
            IsFree(l', j) ==> IsFree(l, o) || (o == i && !IsFree(l, i - 1))
  {
    FreeShape(p, l, i, j);
    TilingDistinct(p, l.blocks);
  }

  /** No two neighbours are free after a free. */
  lemma FreeSeparated(p: int, l: Layout, i: int, j: int)
    requires WF(p, l) && 0 <= i && i + 1 < |l.blocks| && IsLive(l, l.blocks[i])
    requires FreedList(l, i, Free(p, l, l.blocks[i]))
    requires 0 <= j < |Free(p, l, l.blocks[i]).blocks| - 1
    ensures Separated(Free(p, l, l.blocks[i]), j)
  {
    hide Free, Tiling, FreedList, Distinct;
    FreeOrigin(p, l, i, j);
    FreeOrigin(p, l, i, j + 1);
    FreeShape(p, l, i, j + 1);
    assert Separated(l, Origin(l, i, j + 1) - 1) || Origin(l, i, j + 1) == 0;
    assert i > 0 ==> Separated(l, i - 1);
  }

  lemma FreeWF(p: int, l: Layout, a: int)
    requires WF(p, l) && IsLive(l, a)
    ensures WF(p, Free(p, l, a)) && Sentinel(Free(p, l, a)) == Sentinel(l)
    ensures forall x :: IsLive(Free(p, l, a), x) <==> IsLive(l, x) && x != a
  {
    var i := FreeMembers(p, l, a);
    var l' := Free(p, l, a);
    forall j | 0 <= j < |l'.blocks| - 1 ensures Separated(l', j) {
      FreeSeparated(p, l, i, j);
    }
  }
}

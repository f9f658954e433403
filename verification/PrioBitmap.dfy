/** The priority bitmap: one bit a bucket, and a second level of one bit a word when the
    buckets do not fit in one word. */
module PrioBitmap {
  import opened Bits

  /** Two-level bit words over `n` buckets, `2^lw` buckets a word. */
  datatype Words = Words(group: nat, bit: seq<nat>)

  /** What an unsigned 32-bit variable keeps of a number. */
  function Stored32(x: nat): nat {
    x % 0x1_0000_0000
  }

  /** The bucket words are 32 bits wide whatever the processor's data width: do its indices fit? */
  predicate IndicesFit(lw: nat, n: nat) {
    Pow2(lw) <= 32 || n <= 32
  }

  /** Is the bit of bucket `b` set? */
  predicate Has(lw: nat, w: Words, b: nat)
    requires High(lw, b) < |w.bit|
  {
    Bit(w.bit[High(lw, b)], Low(lw, b))
  }

  /** Bit `i` of word `g`, if set, stands for a bucket. */
  ghost predicate NoStray(lw: nat, n: nat, word: nat, g: nat, i: nat) {
    Bit(word, i) ==> i < Pow2(lw) && Join(lw, g, i) < n
  }

  /** The group bit of word `g` tells whether the word is non-zero. */
  ghost predicate GroupBit(w: Words, g: nat) {
    Bit(w.group, g) <==> g < |w.bit| && w.bit[g] != 0
  }

  ghost predicate WellFormed(lw: nat, n: nat, grouped: bool, w: Words) {
    && IndicesFit(lw, n) && n > 0 && |w.bit| == High(lw, n + Pow2(lw) - 1) && |w.bit| <= 32
    && (grouped <==> n > Pow2(lw))
    && (forall g, i: nat | 0 <= g < |w.bit| :: NoStray(lw, n, w.bit[g], g, i))
    && (forall g | 0 <= g < |w.bit| :: w.bit[g] < Pow2(32))
    && (grouped ==> w.group < Pow2(32) && forall g: nat :: GroupBit(w, g))
  }

  lemma BucketWord(lw: nat, n: nat, b: nat)
    requires b < n
    ensures High(lw, b) < High(lw, n + Pow2(lw) - 1) && Low(lw, b) < Pow2(lw)
    ensures n <= Pow2(lw) ==> High(lw, b) == 0 && Low(lw, b) == b
  {
    HighPlus(lw, b);
    SplitOrder(lw, b + Pow2(lw), n + Pow2(lw) - 1);
    if n <= Pow2(lw) { HighOfSmall(lw, b); LowOfSmall(lw, b); }
  }

  // ---- setting and clearing one bit of one word ----

  lemma SetBit(word: nat, i: nat, j: nat)
    ensures Bit(Or(word, Pow2(i)), j) <==> Bit(word, j) || j == i
  {
    OrBit(word, Pow2(i), j);
    Pow2Bit(i, j);
  }

  lemma {:induction false} Pow2Strict(a: nat, b: nat)
    requires a < b
    ensures Pow2(a) < Pow2(b)
  {
    Pow2Monotone(a, b - 1);
  }

  /** word & ~2^i on a 32-bit word. */
  function MaskOut(word: nat, i: nat): nat {
    if Pow2(i) < Pow2(32) then And(word, Not(32, Pow2(i))) else word
  }

  lemma ClearBit(word: nat, i: nat, j: nat)
    requires word < Pow2(32) && i < 32
    ensures MaskOut(word, i) <= word
    ensures Bit(MaskOut(word, i), j) <==> Bit(word, j) && j != i
  {
    hide And, Bit, Not;
    Pow2Strict(i, 32);
    AndBound(word, Not(32, Pow2(i)));
    AndBit(word, Not(32, Pow2(i)), j);
    if j < 32 {
      NotBit(32, Pow2(i), j);
      Pow2Bit(i, j);
    } else {
      HighBitsClear(32, word, j);
    }
  }

  lemma NonZeroIff(word: nat, i: nat)
    requires Bit(word, i)
    ensures word != 0
  {
    if word == 0 { ZeroBits(i); }
  }

  // ---- the bitmap functions on values ----

  /** `bitmap_set`. */
  function SetWords(lw: nat, grouped: bool, w: Words, b: nat): Words
    requires High(lw, b) < |w.bit|
  {
    if grouped then
      var g, i := High(lw, b), And(b, Pow2(lw) - 1);
      Words(Or(w.group, Pow2(g)), w.bit[g := Stored32(Or(w.bit[g], Pow2(i)))])
    else
      w.(bit := w.bit[0 := Stored32(Or(w.bit[0], Pow2(b)))])
  }

  /** `bitmap_clear`: the group bit goes with the word's last bit. */
  function ClearWords(lw: nat, grouped: bool, w: Words, b: nat): Words
    requires High(lw, b) < |w.bit|
  {
    if grouped then
      var g, i := High(lw, b), And(b, Pow2(lw) - 1);
      var word := MaskOut(w.bit[g], i);
      Words(if word == 0 then MaskOut(w.group, g) else w.group, w.bit[g := word])
    else
      w.(bit := w.bit[0 := MaskOut(w.bit[0], b)])
  }

  /** `bitmap_get_highest`. */
  function Highest(lw: nat, grouped: bool, w: Words): nat
    requires |w.bit| > 0
    requires if grouped then w.group > 0 && Log2(w.group) < |w.bit| && w.bit[Log2(w.group)] > 0 else w.bit[0] > 0
  {
    if grouped then Join(lw, Log2(w.group), Log2(w.bit[Log2(w.group)])) else Log2(w.bit[0])
  }

  lemma IndexSmall(lw: nat, n: nat, b: nat)
    requires IndicesFit(lw, n) && b < n
    ensures Low(lw, b) < 32
  {
    BucketWord(lw, n, b);
  }

  lemma StoredWhole(x: nat)
    requires x < Pow2(32)
    ensures Stored32(x) == x
  {
    Pow2Values();
  }

  lemma SetKeeps(lw: nat, n: nat, grouped: bool, w: Words, b: nat)
    requires WellFormed(lw, n, grouped, w) && b < n
    ensures High(lw, b) < |w.bit| && WellFormed(lw, n, grouped, SetWords(lw, grouped, w, b))
    ensures forall c: nat | c < n ::
              High(lw, c) < |w.bit| && (Has(lw, SetWords(lw, grouped, w, b), c) <==> Has(lw, w, c) || c == b)
  {
    hide And, Or, Bit, High, Join, Low, Pow2;
    BucketWord(lw, n, b);
    MaskIsLow(lw, b);
    IndexSmall(lw, n, b);
    var g, i := High(lw, b), Low(lw, b);
    var w' := SetWords(lw, grouped, w, b);
    Pow2Strict(i, 32);
    OrBound(32, w.bit[g], Pow2(i));
    StoredWhole(Or(w.bit[g], Pow2(i)));
    assert w'.bit == w.bit[g := Or(w.bit[g], Pow2(i))];
    SplitJoins(lw, b);
    forall h, j: nat | 0 <= h < |w'.bit| ensures NoStray(lw, n, w'.bit[h], h, j) {
      SetBit(w.bit[g], i, j);
      assert NoStray(lw, n, w.bit[h], h, j);
    }
    if grouped {
      Pow2Strict(g, 32);
      OrBound(32, w.group, Pow2(g));
      forall h: nat ensures GroupBit(w', h) {
        SetBit(w.group, g, h);
        assert GroupBit(w, h);
        SetBit(w.bit[g], i, i);
        NonZeroIff(w'.bit[g], i);
      }
    }
    forall c: nat | c < n ensures High(lw, c) < |w.bit| && (Has(lw, w', c) <==> Has(lw, w, c) || c == b) {
      BucketWord(lw, n, c);
      SetBit(w.bit[g], i, Low(lw, c));
      SplitOrder(lw, b, c);
    }
  }

  /** The group bit goes exactly with the last bit of its word. */
  lemma ClearKeepsGroup(w: Words, w': Words, g: nat, i: nat)
    requires g < |w.bit| && g < 32 && i < 32 && w.bit[g] < Pow2(32) && w.group < Pow2(32)
    requires forall h: nat :: GroupBit(w, h)
    requires var word := MaskOut(w.bit[g], i);
             w' == Words(if word == 0 then MaskOut(w.group, g) else w.group, w.bit[g := word])
    ensures w'.group < Pow2(32) && forall h: nat :: GroupBit(w', h)
  {
    hide Bit, Pow2, MaskOut;
    var word := MaskOut(w.bit[g], i);
    ClearBit(w.group, g, 0);
    forall h: nat ensures GroupBit(w', h) {
      ClearBit(w.group, g, h);
      assert GroupBit(w, h);
      if word != 0 {
        ClearBit(w.bit[g], i, Log2(word));
        Log2IsHighest(word);
        NonZeroIff(w.bit[g], Log2(word));
      }
    }
  }

  lemma ClearKeeps(lw: nat, n: nat, grouped: bool, w: Words, b: nat)
    requires WellFormed(lw, n, grouped, w) && b < n
    ensures High(lw, b) < |w.bit| && WellFormed(lw, n, grouped, ClearWords(lw, grouped, w, b))
    ensures forall c: nat | c < n ::
              High(lw, c) < |w.bit| && (Has(lw, ClearWords(lw, grouped, w, b), c) <==> Has(lw, w, c) && c != b)
  {
    hide And, Or, Bit, High, Join, Low, Pow2, MaskOut;
    BucketWord(lw, n, b);
    MaskIsLow(lw, b);
    IndexSmall(lw, n, b);
    var g, i := High(lw, b), Low(lw, b);
    var w' := ClearWords(lw, grouped, w, b);
    assert w'.bit == w.bit[g := MaskOut(w.bit[g], i)];
    ClearBit(w.bit[g], i, 0);
    forall h, j: nat | 0 <= h < |w'.bit| ensures NoStray(lw, n, w'.bit[h], h, j) {
      ClearBit(w.bit[g], i, j);
      assert NoStray(lw, n, w.bit[h], h, j);
    }
    if grouped { ClearKeepsGroup(w, w', g, i); }
    forall c: nat | c < n ensures High(lw, c) < |w.bit| && (Has(lw, w', c) <==> Has(lw, w, c) && c != b) {
      BucketWord(lw, n, c);
      ClearBit(w.bit[g], i, Low(lw, c));
      SplitOrder(lw, b, c);
    }
  }

  /** The highest bit of a word that is highest among the non-zero ones beats every other. */
  lemma TopBit(lw: nat, n: nat, bit: seq<nat>, top: nat, b: nat)
    requires top < |bit| && bit[top] > 0 && NoStray(lw, n, bit[top], top, Log2(bit[top]))
    requires High(lw, b) < |bit| && Bit(bit[High(lw, b)], Low(lw, b)) && High(lw, b) <= top
    ensures var t := Log2(bit[top]);
            var r := Join(lw, top, t);
            b <= r < n && High(lw, r) == top && Low(lw, r) == t && Bit(bit[top], t)
  {
    var t := Log2(bit[top]);
    Log2IsHighest(bit[top]);
    JoinSplits(lw, top, t);
    SplitOrder(lw, Join(lw, top, t), b);
  }

  lemma HighestGrouped(lw: nat, n: nat, w: Words, b: nat)
    requires WellFormed(lw, n, true, w) && b < n && High(lw, b) < |w.bit| && Has(lw, w, b)
    ensures w.group > 0 && Log2(w.group) < |w.bit| && w.bit[Log2(w.group)] > 0
    ensures var r := Highest(lw, true, w); b <= r < n && High(lw, r) < |w.bit| && Has(lw, w, r)
  {
    NonZeroIff(w.bit[High(lw, b)], Low(lw, b));
    assert GroupBit(w, High(lw, b));
    NonZeroIff(w.group, High(lw, b));
    Log2IsHighest(w.group);
    assert GroupBit(w, Log2(w.group));
    TopBit(lw, n, w.bit, Log2(w.group), b);
  }

  lemma HighestFlat(lw: nat, n: nat, w: Words, b: nat)
    requires WellFormed(lw, n, false, w) && b < n && High(lw, b) < |w.bit| && Has(lw, w, b)
    ensures w.bit[0] > 0
    ensures var r := Highest(lw, false, w); b <= r < n && High(lw, r) < |w.bit| && Has(lw, w, r)
  {
    BucketWord(lw, n, b);
    NonZeroIff(w.bit[0], Low(lw, b));
    TopBit(lw, n, w.bit, 0, b);
    BucketWord(lw, n, Join(lw, 0, Log2(w.bit[0])));
  }

  /** `bitmap_get_highest` finds a marked bucket, and none above it is marked. */
  lemma HighestIsMax(lw: nat, n: nat, grouped: bool, w: Words, b: nat)
    requires WellFormed(lw, n, grouped, w) && b < n && High(lw, b) < |w.bit| && Has(lw, w, b)
    ensures if grouped then w.group > 0 && Log2(w.group) < |w.bit| && w.bit[Log2(w.group)] > 0 else w.bit[0] > 0
    ensures var r := Highest(lw, grouped, w); b <= r < n && High(lw, r) < |w.bit| && Has(lw, w, r)
  {
    if grouped { HighestGrouped(lw, n, w, b); } else { HighestFlat(lw, n, w, b); }
  }

  // ---- which configurations work ----

  /** The words after `bitmap_init`. */
  function Cleared(lw: nat, n: nat): Words {
    Words(0, seq(High(lw, n + Pow2(lw) - 1), _ => 0))
  }

  /** Marking a bucket of an empty bitmap takes effect if its index fits a 32-bit word. */
  lemma SmallBucketKept(lw: nat, n: nat, b: nat)
    requires b < n && Low(lw, b) < 32
    ensures High(lw, b) < |Cleared(lw, n).bit| && Has(lw, SetWords(lw, n > Pow2(lw), Cleared(lw, n), b), b)
  {
    hide Bit, High, Low, Pow2;
    BucketWord(lw, n, b);
    MaskIsLow(lw, b);
    var i := Low(lw, b);
    Pow2Strict(i, 32);
    StoredWhole(Pow2(i));
    Pow2Bit(i, i);
  }

  /** With a data width above 32 and more than 32 buckets, marking bucket 32 has no effect: its bit
      does not fit the word it is stored in. */
  lemma Bucket32Lost(lw: nat, n: nat)
    requires !IndicesFit(lw, n)
    ensures High(lw, 32) < |Cleared(lw, n).bit| && !Has(lw, SetWords(lw, n > Pow2(lw), Cleared(lw, n), 32), 32)
  {
    hide Bit, High, Low;
    BucketWord(lw, n, 32);
    HighOfSmall(lw, 32);
    LowOfSmall(lw, 32);
    MaskIsLow(lw, 32);
    Pow2Values();
    ZeroBits(32);
  }

  /** Every bucket can be marked if and only if the indices fit the words. */
  lemma BitmapWorksIff(lw: nat, n: nat)
    ensures (forall b: nat | b < n :: Keeps(lw, n, b)) <==> IndicesFit(lw, n)
  {
    hide Has, SetWords, Cleared;
    if IndicesFit(lw, n) {
      forall b: nat | b < n ensures Keeps(lw, n, b) {
        IndexSmall(lw, n, b);
        SmallBucketKept(lw, n, b);
      }
    } else {
      Bucket32Lost(lw, n);
      assert !Keeps(lw, n, 32);
    }
  }

  /** Does marking bucket `b` of an empty bitmap take effect? */
  predicate Keeps(lw: nat, n: nat, b: nat) {
    && High(lw, b) < |Cleared(lw, n).bit|
    && Has(lw, SetWords(lw, n > Pow2(lw), Cleared(lw, n), b), b)
  }

  // ---- the bitmap in memory ----

  class Bitmap {
    const lw: nat             // log2 of NCPU_DATA_WIDTH
    const n: nat              // CONFIG_PRIORITY_BUCKETS
    const grouped: bool       // the buckets need more than one word
    var group: nat
    const bit: array<nat>

    ghost function State(): Words
      reads this, bit
    {
      Words(group, bit[..])
    }

    ghost predicate Valid()
      reads this, bit
    {
      WellFormed(lw, n, grouped, State())
    }

    /** Is bucket `b` marked? */
    ghost predicate Marked(b: nat)
      requires Valid() && b < n
      reads this, bit
    {
      BucketWord(lw, n, b); Has(lw, State(), b)
    }

    /** `bitmap_init`. */
    constructor (lw: nat, n: nat)
      requires IndicesFit(lw, n) && 0 < n && High(lw, n + Pow2(lw) - 1) <= 32
      ensures Valid() && this.lw == lw && this.n == n && fresh(bit)
      ensures forall b: nat | b < n :: !Marked(b)
    {
      this.lw, this.n := lw, n;
      grouped := n > Pow2(lw);
      group := 0;
      var words := new nat[High(lw, n + Pow2(lw) - 1)];
      var g := words.Length;
      while g != 0
        invariant 0 <= g <= words.Length && forall h | g <= h < words.Length :: words[h] == 0
      {
        g := g - 1;
        words[g] := 0;
      }
      bit := words;
      new;
      forall h, i: nat | 0 <= h < bit.Length ensures NoStray(lw, n, bit[..][h], h, i) { ZeroBits(i); }
      forall h: nat ensures GroupBit(State(), h) { ZeroBits(h); }
      forall b: nat | b < n ensures !Marked(b) { BucketWord(lw, n, b); ZeroBits(Low(lw, b)); }
    }

    /** `bitmap_set`. */
    method Set(b: nat)
      requires Valid() && b < n
      modifies this`group, bit
      ensures Valid() && forall c: nat | c < n :: Marked(c) <==> old(Marked(c)) || c == b
    {
      hide And, Or, Bit, High, Join, Low;
      SetKeeps(lw, n, grouped, State(), b);
      BucketWord(lw, n, b);
      ghost var w := State();
      if grouped {
        var index := And(b, Pow2(lw) - 1);
        var g := High(lw, b);
        group := Or(group, Pow2(g));
        bit[g] := Stored32(Or(bit[g], Pow2(index)));
      } else {
        bit[0] := Stored32(Or(bit[0], Pow2(b)));
      }
      assert State() == SetWords(lw, grouped, w, b);
    }

    /** `bitmap_clear`. */
    method Clear(b: nat)
      requires Valid() && b < n
      modifies this`group, bit
      ensures Valid() && forall c: nat | c < n :: Marked(c) <==> old(Marked(c)) && c != b
    {
      hide And, Or, Bit, High, Join, Low;
      ClearKeeps(lw, n, grouped, State(), b);
      BucketWord(lw, n, b);
      ghost var w := State();
      if grouped {
        var index := And(b, Pow2(lw) - 1);
        var g := High(lw, b);
        bit[g] := MaskOut(bit[g], index);
        if bit[g] == 0 {
          group := MaskOut(group, g);
        }
      } else {
        bit[0] := MaskOut(bit[0], b);
      }
      assert State() == ClearWords(lw, grouped, w, b);
    }

    /** `bitmap_get_highest`: the highest marked bucket. */
    method GetHighest(ghost some: nat) returns (b: nat)
      requires Valid() && some < n && Marked(some)
      ensures b < n && Marked(b) && forall c: nat | c < n && Marked(c) :: c <= b
    {
      hide Bit, Low, High, Join;
      BucketWord(lw, n, some);
      HighestIsMax(lw, n, grouped, State(), some);
      if grouped {
        var g := Log2(group);
        var index := Log2(bit[g]);
        b := Join(lw, g, index);
      } else {
        b := Log2(bit[0]);
      }
      forall c: nat | c < n && Marked(c) ensures c <= b {
        BucketWord(lw, n, c);
        HighestIsMax(lw, n, grouped, State(), c);
      }
    }
  }
}

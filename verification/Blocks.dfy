/** Dyadic blocks of pages and the canonical set of free blocks.

    A block of order k holds 2^k pages and starts at a multiple of 2^k.  The buddy system keeps
    the free pages F as a set of blocks; this module shows that the set it keeps is `Canon(F)`,
    the maximal aligned runs of F, and that `Canon(F)` is the only reduced set of blocks
    (disjoint, no two free buddies) that covers F. */
module Blocks {
  import opened Bits

  const COMEX_MAX_ORDER: nat := 11
  const TOP: nat := 10

  datatype Block = Block(start: nat, order: nat)

  /** p is a multiple of 2^k. */
  ghost predicate Aligned(p: nat, k: nat) {
    exists q: nat :: Shl(q, k) == p
  }

  ghost predicate WellFormed(b: Block) {
    b.order <= TOP && Aligned(b.start, b.order)
  }

  /** The n pages from lo on. */
  ghost function Range(lo: nat, n: nat): (r: set<nat>)
    ensures forall x: nat :: x in r <==> lo <= x < lo + n
  {
    if n == 0 then {} else Range(lo, n - 1) + {lo + n - 1}
  }

  ghost function Pages(b: Block): set<nat> {
    Range(b.start, Pow2(b.order))
  }

  /** The other half of the parent block: the upper half when b is the lower one. */
  ghost function Buddy(b: Block): Block {
    if Aligned(b.start, b.order + 1) || b.start < Pow2(b.order) then Block(b.start + Pow2(b.order), b.order)
    else Block(b.start - Pow2(b.order), b.order)
  }

  /** The block of the next order that holds b. */
  ghost function Parent(b: Block): Block {
    if Aligned(b.start, b.order + 1) || b.start < Pow2(b.order) then Block(b.start, b.order + 1)
    else Block(b.start - Pow2(b.order), b.order + 1)
  }

  lemma AlignedIffLow(p: nat, k: nat)
    ensures Aligned(p, k) <==> LowBits(p, k) == 0
    ensures Aligned(p, k) ==> Shl(Shr(p, k), k) == p
  {
    Split(p, k);
    if q: nat :| Shl(q, k) == p {
      HighPart(p, q, k);
    }
  }

  /** A multiple of 2^k is the lower half of its parent exactly when bit k is clear. */
  lemma LowerIffBit(p: nat, k: nat)
    requires Aligned(p, k)
    ensures Aligned(p, k + 1) <==> Bit(p, k) == 0
    ensures Bit(p, k) != 0 ==> p >= Pow2(k)
  {
    AlignedIffLow(p, k);
    AlignedIffLow(p, k + 1);
    var q := Shr(p, k + 1);
    Siblings(q, k);
  }

  // ----- aligned runs are the classes of "equal after a shift" -----

  lemma InClass(b: Block, x: nat)
    requires Aligned(b.start, b.order)
    ensures x in Pages(b) <==> Shr(x, b.order) == Shr(b.start, b.order)
  {
    var k := b.order;
    AlignedIffLow(b.start, k);
    Split(x, k);
    if x in Pages(b) {
      HighPart(x, Shr(b.start, k), k);
    }
  }

  lemma {:induction false} ClassGrows(x: nat, y: nat, j: nat, i: nat)
    requires j <= i && Shr(x, j) == Shr(y, j)
    ensures Shr(x, i) == Shr(y, i)
    decreases i
  {
    if j < i {
      ClassGrows(x, y, j, i - 1);
    }
  }

  lemma Nested(a: Block, b: Block, x: nat)
    requires Aligned(a.start, a.order) && Aligned(b.start, b.order) && a.order <= b.order
    requires x in Pages(a) && x in Pages(b)
    ensures Pages(a) <= Pages(b)
  {
    InClass(a, x);
    InClass(b, x);
    forall y | y in Pages(a)
      ensures y in Pages(b)
    {
      InClass(a, y);
      ClassGrows(y, x, a.order, b.order);
      InClass(b, y);
    }
  }

  lemma SameBlock(a: Block, b: Block, x: nat)
    requires Aligned(a.start, a.order) && Aligned(b.start, b.order) && a.order == b.order
    requires x in Pages(a) && x in Pages(b)
    ensures a == b
  {
    InClass(a, x);
    InClass(b, x);
    AlignedIffLow(a.start, a.order);
    AlignedIffLow(b.start, b.order);
  }

  lemma HalfStarts(b: Block)
    requires Aligned(b.start, b.order)
    ensures Aligned(Buddy(b).start, b.order) && Aligned(Parent(b).start, b.order + 1)
    ensures Buddy(b).order == b.order && Parent(b).order == b.order + 1
    ensures Aligned(b.start, b.order + 1) ==>
      Parent(b).start == b.start && Buddy(b).start == b.start + Pow2(b.order)
    ensures !Aligned(b.start, b.order + 1) ==>
      Parent(b).start == Buddy(b).start && Buddy(b).start + Pow2(b.order) == b.start
    ensures Aligned(Buddy(b).start, b.order + 1) <==> !Aligned(b.start, b.order + 1)
  {
    var k := b.order;
    LowerIffBit(b.start, k);
    AlignedIffLow(b.start, k);
    var q := Shr(b.start, k + 1);
    Siblings(q, k);
    LowerIffBit(Shl(2 * q, k), k);
    LowerIffBit(Shl(2 * q + 1, k), k);
  }

  /** The two children of the class q of order k + 1. */
  lemma Siblings(q: nat, k: nat)
    ensures Shl(2 * q, k) == Shl(q, k + 1) && Shl(2 * q + 1, k) == Shl(2 * q, k) + Pow2(k)
    ensures Aligned(Shl(2 * q, k), k) && Bit(Shl(2 * q, k), k) == 0
    ensures Aligned(Shl(2 * q + 1, k), k) && Bit(Shl(2 * q + 1, k), k) == 1
    ensures Aligned(Shl(q, k + 1), k + 1)
  {
    ShlDouble(q, k);
    ShlAdd(2 * q, 1, k);
    Pow2IsShl(k);
    HighPart(Shl(2 * q, k), 2 * q, k);
    HighPart(Shl(2 * q + 1, k), 2 * q + 1, k);
  }

  /** Buddies are the two disjoint halves of their common parent. */
  lemma Halves(b: Block)
    requires Aligned(b.start, b.order)
    ensures Aligned(Buddy(b).start, b.order) && Buddy(b).order == b.order
    ensures Aligned(Parent(b).start, b.order + 1) && Parent(b).order == b.order + 1
    ensures Pages(Parent(b)) == Pages(b) + Pages(Buddy(b))
    ensures Pages(b) !! Pages(Buddy(b))
    ensures Parent(Buddy(b)) == Parent(b) && Buddy(Buddy(b)) == b != Buddy(b)
    ensures b.start in Pages(b)
  {
    HalfStarts(b);
    HalfStarts(Buddy(b));
    assert Pow2(b.order + 1) == 2 * Pow2(b.order);
  }

  lemma ParentInside(a: Block, b: Block, x: nat)
    requires Aligned(a.start, a.order) && Aligned(b.start, b.order) && a.order < b.order
    requires x in Pages(a) && x in Pages(b)
    ensures Pages(Parent(a)) <= Pages(b)
  {
    Halves(a);
    Nested(Parent(a), b, x);
  }

  // ----- the canonical form -----

  /** b is free and is not part of a larger free block. */
  ghost predicate Maximal(free: set<nat>, b: Block) {
    && WellFormed(b)
    && Pages(b) <= free
    && (b.order == TOP || !(Pages(Parent(b)) <= free))
  }

  /** The blocks of every order that start at a free page. */
  ghost function Candidates(free: set<nat>): set<Block> {
    set s, k: nat | s in free && k <= TOP :: Block(s, k)
  }

  /** The maximal ones among some blocks.  (Recursive, so that membership is unfolded by InCanon
      alone.) */
  ghost function Keep(free: set<nat>, blocks: set<Block>): set<Block>
    decreases blocks
  {
    if blocks == {} then {}
    else
      var b :| b in blocks;
      Keep(free, blocks - {b}) + if Maximal(free, b) then {b} else {}
  }

  lemma {:induction false} InKeep(free: set<nat>, blocks: set<Block>, c: Block)
    ensures c in Keep(free, blocks) <==> c in blocks && Maximal(free, c)
    decreases blocks
  {
    if blocks == {} {
    } else {
      var b :| b in blocks && Keep(free, blocks) == Keep(free, blocks - {b}) + if Maximal(free, b) then {b} else {};
      InKeep(free, blocks - {b}, c);
    }
  }

  /** The canonical set of free blocks. */
  ghost function Canon(free: set<nat>): set<Block> {
    Keep(free, Candidates(free))
  }

  lemma InCanon(free: set<nat>, b: Block)
    ensures b in Canon(free) <==> Maximal(free, b)
  {
    InKeep(free, Candidates(free), b);
    if Maximal(free, b) {
      assert b.start in Pages(b);
      assert b == Block(b.start, b.order);
    }
  }

  /** Freeing a run whose buddy is not wholly free adds just that block. */
  lemma InsertCanon(free: set<nat>, b: Block)
    requires WellFormed(b) && Pages(b) !! free
    requires b.order == TOP || !(Pages(Buddy(b)) <= free)
    ensures b !in Canon(free)
    ensures Canon(free + Pages(b)) == Canon(free) + {b}
  {
    var more := free + Pages(b);
    Halves(b);
    InCanon(free, b);
    forall a
      ensures a in Canon(more) <==> a in Canon(free) + {b}
    {
      InCanon(free, a);
      InCanon(more, a);
      if Maximal(more, a) && a != b {
        InsertOnly(free, b, a);
      }
      if Maximal(free, a) {
        InsertKeeps(free, b, a);
      }
    }
  }

  lemma InsertOnly(free: set<nat>, b: Block, a: Block)
    requires WellFormed(b) && Pages(b) !! free
    requires b.order == TOP || !(Pages(Buddy(b)) <= free)
    requires Maximal(free + Pages(b), a) && a != b
    ensures Maximal(free, a)
  {
    var more := free + Pages(b);
    Halves(b);
    if x :| x in Pages(a) && x in Pages(b) {
      if a.order < b.order {
        ParentInside(a, b, x);
        assert false;
      } else if a.order > b.order {
        ParentInside(b, a, x);
        BuddyFree(free, b, Pages(a));
        assert false;
      } else {
        SameBlock(a, b, x);
        assert false;
      }
    }
    assert Pages(a) <= free;
    assert a.order < TOP ==> !(Pages(Parent(a)) <= free) by {
      assert free <= more;
    }
  }

  lemma BuddyFree(free: set<nat>, b: Block, region: set<nat>)
    requires WellFormed(b) && Pages(b) !! free
    requires Pages(Parent(b)) <= region <= free + Pages(b)
    ensures Pages(Buddy(b)) <= free
  {
    Halves(b);
  }

  lemma InsertKeeps(free: set<nat>, b: Block, a: Block)
    requires WellFormed(b) && Pages(b) !! free
    requires b.order == TOP || !(Pages(Buddy(b)) <= free)
    requires Maximal(free, a)
    ensures Maximal(free + Pages(b), a)
  {
    var more := free + Pages(b);
    Halves(b);
    Halves(a);
    var p := Parent(a);
    if a.order < TOP && Pages(p) <= more {
      var x :| x in Pages(p) && x !in free;
      assert x in Pages(b);
      if p.order <= b.order {
        assert a.start in Pages(p) && a.start !in Pages(b);
        Nested(p, b, x);
        assert false;
      } else {
        ParentInside(b, p, x);
        BuddyFree(free, b, Pages(p));
        assert false;
      }
    }
  }

  /** Taking a canonical block away leaves the canonical form of the rest. */
  lemma RemoveCanon(free: set<nat>, b: Block)
    requires b in Canon(free)
    ensures WellFormed(b) && Pages(b) <= free
    ensures Canon(free - Pages(b)) == Canon(free) - {b}
  {
    InCanon(free, b);
    Halves(b);
    var rest := free - Pages(b);
    assert rest + Pages(b) == free;
    InsertCanon(rest, b);
  }

  /** What freeing b does to the set of free blocks: merge with the buddy as long as it is free. */
  ghost function Merge(blocks: set<Block>, b: Block): set<Block>
    requires b.order <= TOP
    decreases TOP - b.order
  {
    if b.order < TOP && Buddy(b) in blocks then Merge(blocks - {Buddy(b)}, Parent(b))
    else blocks + {b}
  }

  /** Freeing by merging computes the canonical form of the enlarged set of free pages. */
  lemma {:induction false} MergeCanon(free: set<nat>, b: Block)
    requires WellFormed(b) && Pages(b) !! free
    ensures Merge(Canon(free), b) == Canon(free + Pages(b))
    decreases TOP - b.order
  {
    if b.order < TOP && Buddy(b) in Canon(free) {
      MergeStep(free, b);
      MergeCanon(free - Pages(Buddy(b)), Parent(b));
    } else {
      NotBuddyNotFree(free, b);
      InsertCanon(free, b);
    }
  }

  /** One turn of the merge loop: the buddy leaves its list and the parent takes its place. */
  lemma MergeStep(free: set<nat>, b: Block)
    requires WellFormed(b) && Pages(b) !! free && b.order < TOP && Buddy(b) in Canon(free)
    ensures WellFormed(Parent(b)) && Pages(Parent(b)) !! free - Pages(Buddy(b))
    ensures Canon(free - Pages(Buddy(b))) == Canon(free) - {Buddy(b)}
    ensures free - Pages(Buddy(b)) + Pages(Parent(b)) == free + Pages(b)
  {
    Halves(b);
    RemoveCanon(free, Buddy(b));
  }

  /** A buddy that heads no free block is not wholly free. */
  lemma NotBuddyNotFree(free: set<nat>, b: Block)
    requires WellFormed(b) && Pages(b) !! free
    requires b.order == TOP || Buddy(b) !in Canon(free)
    ensures b.order == TOP || !(Pages(Buddy(b)) <= free)
  {
    Halves(b);
    InCanon(free, Buddy(b));
    if b.order < TOP && Pages(Buddy(b)) <= free {
      assert b.start in Pages(Parent(b));
      assert Maximal(free, Buddy(b));
    }
  }

  // ----- uniqueness: the canonical form against the textbook invariant -----

  /** All pages of a set of blocks. */
  ghost function Cover(blocks: set<Block>): set<nat> {
    set b, x | b in blocks && x in Pages(b) :: x
  }

  /** Aligned, pairwise disjoint, and no two free buddies below the top order. */
  ghost predicate Reduced(blocks: set<Block>) {
    && (forall b | b in blocks :: WellFormed(b))
    && (forall a, b | a in blocks && b in blocks && a != b :: Pages(a) !! Pages(b))
    && (forall b | b in blocks && b.order < TOP :: Buddy(b) !in blocks)
  }

  /** The history of splits and merges cannot matter: a reduced set of blocks is determined by
      the pages it covers. */
  lemma ReducedIsCanon(blocks: set<Block>)
    requires Reduced(blocks)
    ensures blocks == Canon(Cover(blocks))
  {
    var free := Cover(blocks);
    forall b
      ensures b in blocks <==> b in Canon(free)
    {
      InCanon(free, b);
      if b in blocks {
        assert Pages(b) <= free;
        Halves(b);
        if b.order < TOP && Pages(Parent(b)) <= free {
          var c := InsideOne(blocks, Parent(b));
          assert b.start in Pages(c);
          assert b == c;
          BlockGrew(b);
        }
      } else if Maximal(free, b) {
        var c := InsideOne(blocks, b);
        Halves(b);
        if b.order < c.order {
          ParentInside(b, c, b.start);
          CoverHolds(blocks, c);
        } else {
          NotLarger(c, b);
          SameBlock(b, c, b.start);
        }
      }
    }
  }

  lemma BlockGrew(b: Block)
    requires Aligned(b.start, b.order)
    ensures !(Pages(Parent(b)) <= Pages(b))
  {
    Halves(b);
    Halves(Buddy(b));
    assert Buddy(b).start in Pages(Parent(b));
  }

  lemma NotLarger(c: Block, b: Block)
    requires Aligned(b.start, b.order) && Aligned(c.start, c.order)
    requires Pages(b) <= Pages(c)
    ensures b.order <= c.order
  {
    if c.order < b.order {
      Halves(b);
      ParentInside(c, b, b.start);
      Halves(c);
      BlockGrew(c);
    }
  }

  lemma CoverHolds(blocks: set<Block>, c: Block)
    requires c in blocks
    ensures Pages(c) <= Cover(blocks)
  {}

  /** In a reduced set, a covered aligned run lies inside a single block. */
  lemma {:induction false} InsideOne(blocks: set<Block>, b: Block) returns (c: Block)
    requires Reduced(blocks) && WellFormed(b) && Pages(b) <= Cover(blocks)
    ensures c in blocks && Pages(b) <= Pages(c)
    decreases b.order
  {
    if b.order == 0 {
      assert b.start in Pages(b);
      c :| c in blocks && b.start in Pages(c);
    } else {
      var l := LeftHalf(b);
      var r := Buddy(l);
      Halves(l);
      var c1 := InsideOne(blocks, l);
      var c2 := InsideOne(blocks, r);
      NotLarger(c1, l);
      NotLarger(c2, r);
      if l.order < c1.order {
        ParentInside(l, c1, l.start);
        c := c1;
      } else if l.order < c2.order {
        Halves(r);
        ParentInside(r, c2, r.start);
        c := c2;
      } else {
        Halves(r);
        SameBlock(l, c1, l.start);
        SameBlock(r, c2, r.start);
        assert false;
      }
    }
  }

  lemma LeftHalf(b: Block) returns (l: Block)
    requires WellFormed(b) && b.order > 0
    ensures WellFormed(l) && Parent(l) == b && l.order == b.order - 1 && l.start == b.start
  {
    l := Block(b.start, b.order - 1);
    var q: nat :| Shl(q, b.order) == b.start;
    Siblings(q, b.order - 1);
  }

  /** The canonical form is reduced and covers exactly the free pages. */
  lemma CanonIsReduced(free: set<nat>)
    ensures Reduced(Canon(free)) && Cover(Canon(free)) == free
  {
    forall b | b in Canon(free)
      ensures WellFormed(b) && Pages(b) <= free
    {
      InCanon(free, b);
    }
    forall a, b | a in Canon(free) && b in Canon(free) && a != b
      ensures Pages(a) !! Pages(b)
    {
      InCanon(free, a);
      InCanon(free, b);
      if x :| x in Pages(a) && x in Pages(b) {
        if a.order < b.order {
          ParentInside(a, b, x);
        } else if b.order < a.order {
          ParentInside(b, a, x);
        } else {
          SameBlock(a, b, x);
        }
      }
    }
    forall b | b in Canon(free) && b.order < TOP
      ensures Buddy(b) !in Canon(free)
    {
      InCanon(free, b);
      InCanon(free, Buddy(b));
      Halves(b);
    }
    forall x | x in free
      ensures x in Cover(Canon(free))
    {
      SingletonPage(x);
      var c := Climb(free, Block(x, 0));
      InCanon(free, c);
      assert x in Pages(c);
    }
  }

  lemma SingletonPage(x: nat)
    ensures WellFormed(Block(x, 0)) && Pages(Block(x, 0)) == {x}
  {
    assert Pow2(0) == 1 && Shl(x, 0) == x;
  }

  /** Every free aligned run lies inside a canonical block. */
  lemma {:induction false} Climb(free: set<nat>, b: Block) returns (c: Block)
    requires WellFormed(b) && Pages(b) <= free
    ensures Maximal(free, c) && Pages(b) <= Pages(c)
    decreases TOP - b.order
  {
    if b.order < TOP && Pages(Parent(b)) <= free {
      Halves(b);
      c := Climb(free, Parent(b));
    } else {
      c := b;
    }
  }

  /** Some aligned run of order k is wholly free. */
  ghost predicate HasRun(free: set<nat>, k: nat) {
    exists b :: WellFormed(b) && b.order == k && Pages(b) <= free
  }

  /** Some canonical block has order k or more. */
  ghost predicate HasBlock(free: set<nat>, k: nat) {
    exists c :: c in Canon(free) && k <= c.order
  }

  /** A free aligned run of order k exists exactly when some canonical block has order k or more. */
  lemma RunExists(free: set<nat>, k: nat)
    ensures HasRun(free, k) <==> HasBlock(free, k)
  {
    if HasRun(free, k) {
      var b :| WellFormed(b) && b.order == k && Pages(b) <= free;
      var c := Climb(free, b);
      InCanon(free, c);
      NotLarger(c, b);
    }
    if HasBlock(free, k) {
      var c :| c in Canon(free) && k <= c.order;
      InCanon(free, c);
      var l := Prefix(c, k);
      assert Pages(l) <= free;
    }
  }

  lemma {:induction false} Prefix(c: Block, k: nat) returns (l: Block)
    requires WellFormed(c) && k <= c.order
    ensures l == Block(c.start, k) && WellFormed(l) && Pages(l) <= Pages(c)
    decreases c.order
  {
    if k == c.order {
      l := c;
    } else {
      var h := LeftHalf(c);
      Halves(h);
      l := Prefix(h, k);
    }
  }

  lemma {:induction false} LowerAlignment(p: nat, j: nat, k: nat)
    requires j <= k && Aligned(p, k)
    ensures Aligned(p, j)
    decreases k
  {
    if j < k {
      var q: nat :| Shl(q, k) == p;
      ShlDouble(q, k - 1);
      LowerAlignment(p, j, k - 1);
    }
  }

  /** A block that starts inside a pool of whole 1024-page groups lies inside it. */
  lemma InsidePool(total: nat, b: Block)
    requires Aligned(total, TOP) && WellFormed(b) && b.start < total
    ensures b.start + Pow2(b.order) <= total
  {
    var k := b.order;
    LowerAlignment(total, k, TOP);
    var t: nat :| Shl(t, k) == total;
    var p: nat :| Shl(p, k) == b.start;
    if p >= t {
      ShlAdd(t, p - t, k);
    } else {
      ShlAdd(p, 1, k);
      ShlAdd(p + 1, t - p - 1, k);
      Pow2IsShl(k);
    }
  }

  /** The buddy and the parent of a block of the pool are in the pool, and the parent starts where
      one of the two buddies starts. */
  lemma BuddyInsidePool(total: nat, b: Block)
    requires Aligned(total, TOP) && WellFormed(b) && b.order < TOP && b.start < total
    ensures Buddy(b).start < total && Parent(b).start < total
    ensures WellFormed(Parent(b)) && Buddy(b).order == b.order && Parent(b).order == b.order + 1
    ensures Parent(b).start == b.start || Parent(b).start == Buddy(b).start
  {
    HalfStarts(b);
    InsidePool(total, Parent(b));
  }
}

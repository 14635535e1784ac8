/** The index arithmetic with which the source finds the buddy and the parent of a block. */
module BlockIndex {
  import opened Bits
  import opened Blocks

  /** The low bits of an aligned page number tell on which side of its parent its block is. */
  lemma IndexSide(p: nat, n: nat, k: nat)
    requires Aligned(p, k) && k < n
    ensures Bit(LowBits(p, n), k) == 0 <==> Aligned(p, k + 1)
  {
    LowerIffBit(p, k);
    BitOfLow(p, n, k);
  }

  /** With page_idx the low n bits of p, the buddy is at p + ((page_idx ^ (1 << k)) - page_idx). */
  lemma BuddyIndex(p: nat, n: nat, k: nat)
    requires Aligned(p, k) && k < n
    ensures p + (BitXor(LowBits(p, n), Pow2(k)) - LowBits(p, n)) == Buddy(Block(p, k)).start
  {
    HalfStarts(Block(p, k));
    IndexSide(p, n, k);
    XorBit(LowBits(p, n), k);
  }

  /** The parent is at p + ((page_idx & ~(1 << k)) - page_idx). */
  lemma ParentIndex(p: nat, n: nat, k: nat)
    requires Aligned(p, k) && k < n
    ensures p + (BitAndNot(LowBits(p, n), Pow2(k)) - LowBits(p, n)) == Parent(Block(p, k)).start
  {
    HalfStarts(Block(p, k));
    IndexSide(p, n, k);
    AndNotBit(LowBits(p, n), k);
  }

  /** The low bits of the parent are page_idx & ~(1 << k) again. */
  lemma ParentLow(p: nat, n: nat, k: nat)
    requires Aligned(p, k) && k < n
    ensures BitAndNot(LowBits(p, n), Pow2(k)) == LowBits(Parent(Block(p, k)).start, n)
  {
    var q := Parent(Block(p, k)).start;
    ParentIndex(p, n, k);
    HalfStarts(Block(p, k));
    IndexSide(p, n, k);
    AndNotBit(LowBits(p, n), k);
    SameHigh(p, q, n);
  }

  /** Taking something off the low bits of p alone. */
  lemma SameHigh(p: nat, q: nat, n: nat)
    requires q <= p && p - q <= LowBits(p, n)
    ensures LowBits(q, n) == LowBits(p, n) - (p - q)
  {
    Split(p, n);
    HighPart(q, Shr(p, n), n);
    Split(q, n);
  }
}

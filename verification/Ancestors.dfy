/** The blocks that a freed block may be merged up to: its parent, the parent of that, and so on. */
module Ancestors {
  import opened Bits
  import opened Blocks

  /** The block of order k that holds b. */
  ghost function Ancestor(b: Block, k: nat): Block {
    if k <= b.order then b else Parent(Ancestor(b, k - 1))
  }

  lemma {:induction false} AncestorHolds(b: Block, k: nat)
    requires WellFormed(b) && b.order <= k <= TOP
    ensures WellFormed(Ancestor(b, k)) && Ancestor(b, k).order == k && Pages(b) <= Pages(Ancestor(b, k))
    decreases k
  {
    if k == b.order {
    } else {
      AncestorHolds(b, k - 1);
      Halves(Ancestor(b, k - 1));
    }
  }

  lemma {:induction false} AncestorOfParent(b: Block, k: nat)
    requires WellFormed(b) && b.order < k
    ensures Ancestor(Parent(b), k) == Ancestor(b, k)
    decreases k
  {
    HalfStarts(b);
    if k == b.order + 1 {
    } else {
      AncestorOfParent(b, k - 1);
    }
  }

  /** The parent has the pages of the block and of its buddy. */
  lemma AncestorGrows(free: set<nat>, b: Block, k: nat)
    requires WellFormed(b) && b.order <= k < TOP && Pages(Buddy(Ancestor(b, k))) <= free
    ensures Pages(Ancestor(b, k + 1)) <= Pages(Ancestor(b, k)) + free
  {
    AncestorHolds(b, k);
    assert Ancestor(b, k + 1) == Parent(Ancestor(b, k));
    Halves(Ancestor(b, k));
  }
}

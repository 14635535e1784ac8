/** The lender's side: building the pool at start-up, answering a request for pages, and taking
    a page for the node's own use. */
module Lender {
  import opened Bits
  import opened Blocks
  import opened Ancestors
  import opened FreeLists
  import opened BuddySystem

  // ----- COMEX_pages_request -----

  /** What COMEX_rmqueue_smallest may answer, and what it leaves free. */
  ghost predicate TakeResult(free: set<nat>, order: nat, r: int, free': set<nat>) {
    if HasRun(free, order)
    then r >= 0 && WellFormed(Block(r, order)) && Pages(Block(r, order)) <= free
       && free' == free - Pages(Block(r, order))
    else r == -1 && free' == free
  }

  /** What COMEX_pages_request may reply, and what it leaves free: a block of the largest order
      available, from the refill order down to order 5, or -1 when no order has one. */
  ghost predicate GrantResult(free: set<nat>, refill: nat, pageNO: int, size: nat, free': set<nat>) {
    && size <= refill && (size == refill || 5 <= size)
    && (forall j | size < j <= refill :: !HasRun(free, j))
    && (pageNO == -1 ==> size <= 5)
    && TakeResult(free, size, pageNO, free')
  }

  /** A reply of -1 means that no order the lender tries has a free block. */
  lemma NoGrant(free: set<nat>, refill: nat, pageNO: int, size: nat, free': set<nat>)
    requires GrantResult(free, refill, pageNO, size, free')
    ensures pageNO == -1 <==> forall j | j <= refill && (j == refill || 5 <= j) :: !HasRun(free, j)
  {}

  /** COMEX_pages_request */
  method PagesRequest(b: BuddyAllocator, refill: nat) returns (pageNO: int, size: nat)
    requires b.Valid()
    modifies b.Repr()
    ensures b.Valid() && GrantResult(old(b.Free()), refill, pageNO, size, b.Free())
    ensures pageNO >= 0 ==>
      && (size == refill || 5 <= size < refill)
      && (forall j | size < j <= refill :: !HasRun(old(b.Free()), j))
      && pageNO % Pow2(size) == 0 && Range(pageNO, Pow2(size)) <= old(b.Free())
      && b.Free() == old(b.Free()) - Range(pageNO, Pow2(size))
    ensures pageNO < 0 ==>
      && pageNO == -1 && size == (if refill < 5 then refill else 5)
      && (forall j | size <= j <= refill :: !HasRun(old(b.Free()), j))
      && b.Free() == old(b.Free())
  {
    var i := refill;
    pageNO := b.RmqueueSmallest(i);
    size := i;
    while pageNO < 0 && i > 5
      invariant b.Valid() && size == i <= refill && (i == refill || 5 <= i)
      invariant forall j | i < j <= refill :: !HasRun(old(b.Free()), j)
      invariant TakeResult(old(b.Free()), size, pageNO, b.Free())
      decreases i
    {
      i := i - 1;
      pageNO := b.RmqueueSmallest(i);
      size := i;
    }
    if pageNO >= 0 {
      GrantAligned(old(b.Free()), refill, pageNO, size, b.Free());
    }
  }

  /** A granted page number is a multiple of the size of its group, so the warning of COMEX_RDMA_fn on
      a wrong address cannot appear. */
  lemma GrantAligned(free: set<nat>, refill: nat, pageNO: int, size: nat, free': set<nat>)
    requires GrantResult(free, refill, pageNO, size, free') && pageNO >= 0
    ensures pageNO % Pow2(size) == 0
  {
    AlignedIffLow(pageNO, size);
    LowBitsIsMod(pageNO, size);
  }

  /** The allocation of COMEX_move_to_COMEX. */
  method TakeForLocalUse(b: BuddyAllocator) returns (ok: bool, pageNO: int)
    requires b.Valid()
    modifies b.Repr()
    ensures b.Valid() && TakeResult(old(b.Free()), 0, pageNO, b.Free())
    ensures ok <==> old(b.Free()) != {}
    ensures ok ==> pageNO in old(b.Free()) && b.Free() == old(b.Free()) - {pageNO}
  {
    SinglePageRun(b.Free());
    pageNO := b.RmqueueSmallest(0);
    ok := !(pageNO < 0 || pageNO >= b.total);
    if pageNO >= 0 {
      SingletonPage(pageNO);
    }
  }

  // ----- COMEX_init_ENV -----

  /** A pool of whole groups is kept as its order-10 blocks and nothing else. */
  lemma WholePool(total: nat)
    requires Aligned(total, TOP)
    ensures forall b :: b in Canon(Range(0, total)) <==> b.order == TOP && Aligned(b.start, TOP) && b.start < total
  {
    forall b
      ensures b in Canon(Range(0, total)) <==> b.order == TOP && Aligned(b.start, TOP) && b.start < total
    {
      InCanon(Range(0, total), b);
      if b.order == TOP && Aligned(b.start, TOP) && b.start < total {
        InsidePool(total, b);
      } else if b.order < TOP && Maximal(Range(0, total), b) {
        Halves(b);
        BuddyInsidePool(total, b);
        InsidePool(total, Parent(b));
      }
    }
  }

  lemma HasFirst(s: seq<nat>)
    ensures s == [] || s[0] in s
  {}

  /** A list without repetitions is as long as any other with the same elements. */
  lemma {:induction false} SameLength(s: seq<nat>, t: seq<nat>)
    requires Distinct(s) && Distinct(t) && forall x :: x in s <==> x in t
    ensures |s| == |t|
    decreases |s|
  {
    HasFirst(t);
    if s != [] {
      assert s[0] in t;
      var i :| 0 <= i < |t| && t[i] == s[0];
      var s', t' := s[..0] + s[0 + 1..], t[..i] + t[i + 1..];
      DropOne(s, 0);
      DropOne(t, i);
      forall x
        ensures x in s' <==> x in t'
      {
        assert x in s' <==> x in s && x != s[0];
        assert x in t' <==> x in t && x != t[i];
      }
      SameLength(s', t');
    }
  }

  /** The starts of the 1024-page groups of the pool. */
  ghost function Groups(n: nat): seq<nat> {
    if n == 0 then [] else Groups(n - 1) + [1024 * (n - 1)]
  }

  lemma {:induction false} GroupsAre(n: nat)
    ensures |Groups(n)| == n && forall i | 0 <= i < n :: Groups(n)[i] == 1024 * i
  {
    if n == 0 {
    } else {
      GroupsAre(n - 1);
    }
  }

  /** After start-up frees every page: total/1024 blocks of order 10, and no smaller block. */
  lemma FullPoolCounts(b: BuddyAllocator)
    requires b.Valid() && b.Free() == Range(0, b.total)
    ensures b.nrFree[TOP] == b.total / 1024
    ensures forall k | 0 <= k < TOP :: b.nrFree[k] == 0
  {
    var n := b.total / 1024;
    GroupsAre(n);
    MultiplesOf1024(b.total);
    WholePool(b.total);
    forall p
      ensures p in b.table.lists[TOP] <==> p in Groups(n)
    {
      MultiplesOf1024(p);
      if p in b.table.lists[TOP] {
        assert Block(p, TOP) in b.blocks;
        assert Groups(n)[p / 1024] == p;
      }
      if p in Groups(n) {
        assert Block(p, TOP) in b.blocks;
      }
    }
    SameLength(b.table.lists[TOP], Groups(n));
    forall k | 0 <= k < TOP
      ensures b.table.lists[k] == []
    {
      EmptyList(b, k);
    }
  }

  lemma EmptyList(b: BuddyAllocator, k: nat)
    requires b.Valid() && k < COMEX_MAX_ORDER && forall p: nat :: Block(p, k) !in b.blocks
    ensures b.table.lists[k] == []
  {
    var l := b.table.lists[k];
    assert forall p | p in l :: Block(p, k) in b.blocks;
    HasFirst(l);
  }

  lemma MultiplesOf1024(p: nat)
    ensures Aligned(p, TOP) <==> p % 1024 == 0
    ensures p % 1024 == 0 ==> p == 1024 * (p / 1024)
  {
    AlignedIffLow(p, TOP);
    LowBitsIsMod(p, TOP);
    assert Pow2(TOP) == 1024 by {
      assert Pow2(5) == 32;
    }
  }

  /** The start-up sequence: free every page, drain the pool page by page, then free the pages that
      have memory behind them.  `backed[i]` says whether page i has an address. */
  method InitEnv(totalPages: nat, backed: seq<bool>) returns (b: BuddyAllocator, ghost drained: nat)
    requires totalPages % 1024 == 0 && |backed| == totalPages
    ensures fresh(b) && b.Valid() && b.total == totalPages
    ensures drained == totalPages
    ensures b.Free() == set i: nat | i < totalPages && backed[i]
  {
    MultiplesOf1024(totalPages);
    b := new BuddyAllocator(totalPages);
    FreeAll(b);
    RangeSize(0, totalPages);
    drained := Drain(b);
    FreeBacked(b, backed);
  }

  lemma {:induction false} RangeSize(lo: nat, n: nat)
    ensures |Range(lo, n)| == n
  {
    if n == 0 {
    } else {
      RangeSize(lo, n - 1);
    }
  }

  /** Sets that grow by free pages only. */
  lemma {:induction false} Grown(free: set<nat>, sets: nat -> set<nat>, low: nat, high: nat)
    requires low <= high && forall k | low <= k < high :: sets(k + 1) <= sets(k) + free
    ensures sets(high) <= sets(low) + free
    decreases high - low
  {
    if low < high {
      Grown(free, sets, low + 1, high);
    }
  }

  /** When page i is freed after all pages in front of it, it completes a 1024-page group exactly when it is
      the last page of one. */
  lemma GroupComplete(i: nat, top: nat)
    requires top <= TOP
    requires forall k | 0 <= k < top :: Buddy(Ancestor(Block(i, 0), k)) in Canon(Range(0, i))
    requires top == TOP || Buddy(Ancestor(Block(i, 0), top)) !in Canon(Range(0, i))
    ensures top == TOP <==> i % 1024 == 1023
    ensures top == TOP ==> Ancestor(Block(i, 0), TOP).start == 1024 * (i / 1024)
  {
    var free, b := Range(0, i), Block(i, 0);
    SingletonPage(i);
    AncestorHolds(b, TOP);
    var g := Ancestor(b, TOP);
    MultiplesOf1024(g.start);
    GroupPage(g, i);
    var sets := (k: nat) => Pages(Ancestor(b, k));
    forall k | 0 <= k < top
      ensures sets(k + 1) <= sets(k) + free
    {
      InCanon(free, Buddy(Ancestor(b, k)));
      AncestorGrows(free, b, k);
    }
    Grown(free, sets, 0, top);
    if top == TOP {
      GroupInFront(g, i);
    } else if i % 1024 == 1023 {
      LastBuddyFree(i, top, g);
      assert false;
    }
  }

  lemma GroupPage(g: Block, i: nat)
    requires WellFormed(g) && g.order == TOP && i in Pages(g)
    ensures g.start % 1024 == 0 && g.start == 1024 * (i / 1024) && i < g.start + 1024
  {
    MultiplesOf1024(g.start);
    assert Pow2(TOP) == 1024 by {
      assert Pow2(5) == 32;
    }
  }

  lemma GroupInFront(g: Block, i: nat)
    requires WellFormed(g) && g.order == TOP && i in Pages(g) && Pages(g) <= Range(0, i) + {i}
    ensures i % 1024 == 1023
  {
    GroupPage(g, i);
    assert Pow2(TOP) == 1024 by {
      assert Pow2(5) == 32;
    }
    assert g.start + 1023 in Pages(g);
  }

  /** In front of the last page of a group, every buddy on the way up is a free block. */
  lemma LastBuddyFree(i: nat, k: nat, g: Block)
    requires k < TOP && i % 1024 == 1023 && g == Ancestor(Block(i, 0), TOP)
    ensures Buddy(Ancestor(Block(i, 0), k)) in Canon(Range(0, i))
  {
    var free, b := Range(0, i), Block(i, 0);
    SingletonPage(i);
    AncestorHolds(b, k);
    AncestorHolds(b, TOP);
    var a := Ancestor(b, k);
    Halves(a);
    Halves(Buddy(a));
    Nested(Parent(a), g, i);
    GroupPage(g, i);
    assert Pow2(TOP) == 1024 by {
      assert Pow2(5) == 32;
    }
    forall x | x in Pages(Buddy(a))
      ensures x in free
    {
      assert x in Pages(g) && x != i;
    }
    assert i in Pages(Parent(Buddy(a))) && i !in free;
    InCanon(free, Buddy(a));
  }

  lemma GroupStarts(i: nat)
    ensures Groups((i + 1) / 1024) ==
      if i % 1024 == 1023 then Groups(i / 1024) + [1024 * (i / 1024)] else Groups(i / 1024)
  {}

  /** One page more: its group goes to the end of the list of order 10 once it is complete. */
  method FreeNext(b: BuddyAllocator, i: nat)
    requires b.Valid() && b.Free() == Range(0, i) && i < b.total && b.table.lists[TOP] == Groups(i / 1024)
    modifies b.Repr()
    ensures b.Valid() && b.Free() == Range(0, i + 1) && b.table.lists[TOP] == Groups((i + 1) / 1024)
  {
    SingletonPage(i);
    ghost var top := MergedListsMeans(b.blocks, b.table.lists, Block(i, 0));
    GroupComplete(i, top);
    GroupStarts(i);
    b.FreePage(i, 0);
    assert Range(0, i + 1) == Range(0, i) + {i};
  }

  method FreeAll(b: BuddyAllocator)
    requires b.Valid() && b.Free() == {}
    modifies b.Repr()
    ensures b.Valid() && b.Free() == Range(0, b.total)
    ensures b.table.lists[TOP] == Groups(b.total / 1024)
  {
    EmptyLists(b);
    for i := 0 to b.total
      invariant b.Valid() && b.Free() == Range(0, i) && b.table.lists[TOP] == Groups(i / 1024)
    {
      FreeNext(b, i);
    }
  }

  /** The drain loop takes single pages until the allocator has none left. */
  method Drain(b: BuddyAllocator) returns (ghost taken: nat)
    requires b.Valid()
    modifies b.Repr()
    ensures b.Valid() && b.Free() == {} && taken == |old(b.Free())|
    ensures forall k | 0 <= k < COMEX_MAX_ORDER :: b.table.lists[k] == [] && b.nrFree[k] == 0
  {
    var ret := 0;
    taken := 0;
    while ret >= 0
      invariant b.Valid() && taken + |b.Free()| == |old(b.Free())|
      invariant ret < 0 ==> b.Free() == {}
      decreases |b.Free()|, ret
    {
      ghost var before := b.Free();
      ret := b.RmqueueSmallest(0);
      if ret >= 0 {
        SingletonPage(ret);
        taken := taken + 1;
      } else {
        SinglePageRun(before);
      }
    }
    EmptyLists(b);
  }

  lemma SinglePageRun(free: set<nat>)
    ensures HasRun(free, 0) <==> free != {}
  {
    if x :| x in free {
      SingletonPage(x);
      assert Block(x, 0).order == 0;
    }
    if b :| WellFormed(b) && b.order == 0 && Pages(b) <= free {
      assert b.start in Pages(b);
    }
  }

  lemma EmptyLists(b: BuddyAllocator)
    requires b.Valid() && b.Free() == {}
    ensures forall k | 0 <= k < COMEX_MAX_ORDER :: b.table.lists[k] == [] && b.nrFree[k] == 0
  {
    forall k | 0 <= k < COMEX_MAX_ORDER
      ensures b.table.lists[k] == []
    {
      forall p: nat
        ensures Block(p, k) !in b.blocks
      {
        HeldHeadsNothing({}, p);
      }
      EmptyList(b, k);
    }
  }

  ghost function BackedBelow(backed: seq<bool>, n: nat): set<nat>
    requires n <= |backed|
  {
    set j: nat | j < n && backed[j]
  }

  lemma BackedNext(backed: seq<bool>, n: nat)
    requires n < |backed|
    ensures BackedBelow(backed, n + 1) == BackedBelow(backed, n) + if backed[n] then {n} else {}
  {}

  method FreeBacked(b: BuddyAllocator, backed: seq<bool>)
    requires b.Valid() && b.Free() == {} && |backed| == b.total
    modifies b.Repr()
    ensures b.Valid() && b.Free() == set i: nat | i < b.total && backed[i]
  {
    for i := 0 to b.total
      invariant b.Valid() && b.Free() == BackedBelow(backed, i)
    {
      BackedNext(backed, i);
      if backed[i] {
        SingletonPage(i);
        b.FreePage(i, 0);
      }
    }
  }
}

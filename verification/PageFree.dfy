/** Giving runs of pages back: the decomposition of a PAGE_FREE message into aligned blocks. */
module PageFree {
  import opened Bits
  import opened Blocks
  import opened FreeLists
  import opened BuddySystem

  const MAX_FREE: nat := 16

  // ----- the greedy decomposition -----

  /** The largest order up to k whose block fits n pages and may start at `start`. */
  ghost function Greedy(start: nat, n: nat, k: nat): (r: nat)
    ensures r <= k
  {
    if k == 0 || (Pow2(k) <= n && Aligned(start, k)) then k else Greedy(start, n, k - 1)
  }

  ghost predicate Fits(start: nat, n: nat, k: nat) {
    Pow2(k) <= n && Aligned(start, k)
  }

  lemma {:induction false} GreedyIsLargest(start: nat, n: nat, k: nat)
    requires n > 0
    ensures Fits(start, n, Greedy(start, n, k))
    ensures forall j | Greedy(start, n, k) < j <= k :: !Fits(start, n, j)
  {
    if k > 0 && !Fits(start, n, k) {
      GreedyIsLargest(start, n, k - 1);
    }
    assert Shl(start, 0) == start && Pow2(0) == 1;
  }

  lemma GreedyFits(start: nat, n: nat)
    requires n > 0
    ensures Fits(start, n, Greedy(start, n, TOP))
  {
    GreedyIsLargest(start, n, TOP);
  }

  /** The blocks COMEX_do_work frees for the run of n pages from `start` on. */
  ghost function Tile(start: nat, n: nat): seq<Block>
    decreases n
  {
    if n == 0 then []
    else
      GreedyFits(start, n);
      var k := Greedy(start, n, TOP);
      [Block(start, k)] + Tile(start + Pow2(k), n - Pow2(k))
  }

  /** Each block starts where the one before it ends, from `start` to `start + n`. */
  ghost predicate Tiles(blocks: seq<Block>, start: nat, n: nat) {
    if blocks == [] then n == 0
    else
      var b := blocks[0];
      b.start == start && WellFormed(b) && Pow2(b.order) <= n &&
      Tiles(blocks[1..], start + Pow2(b.order), n - Pow2(b.order))
  }

  /** The first block of a cut, and what is left. */
  lemma FirstTile(start: nat, n: nat) returns (k: nat, next: nat, left: nat)
    requires n > 0
    ensures k == Greedy(start, n, TOP) && Pow2(k) <= n && Aligned(start, k)
    ensures next == start + Pow2(k) && left == n - Pow2(k) && left < n
    ensures Tile(start, n) == [Block(start, k)] + Tile(next, left)
  {
    GreedyFits(start, n);
    k := Greedy(start, n, TOP);
    next, left := start + Pow2(k), n - Pow2(k);
  }

  lemma {:induction false} TileTiles(start: nat, n: nat)
    ensures Tiles(Tile(start, n), start, n)
    decreases n
  {
    if n == 0 {
    } else {
      var k, next, left := FirstTile(start, n);
      TileTiles(next, left);
      ConsTiles(Block(start, k), Tile(next, left), n);
    }
  }

  lemma ConsTiles(b: Block, rest: seq<Block>, n: nat)
    requires WellFormed(b) && Pow2(b.order) <= n && Tiles(rest, b.start + Pow2(b.order), n - Pow2(b.order))
    ensures Tiles([b] + rest, b.start, n)
  {
    assert ([b] + rest)[1..] == rest;
  }

  // ----- how many blocks -----

  lemma NextStart(p: nat, k: nat)
    requires Aligned(p, k)
    ensures Aligned(p + Pow2(k), k)
    ensures !Aligned(p, k + 1) ==> Aligned(p + Pow2(k), k + 1)
  {
    var q: nat :| Shl(q, k) == p;
    ShlAdd(q, 1, k);
    Pow2IsShl(k);
    if q % 2 == 0 {
      ShlDouble(q / 2, k);
      assert Shl(q / 2, k + 1) == p;
    } else {
      ShlDouble((q + 1) / 2, k);
      assert Shl((q + 1) / 2, k + 1) == p + Pow2(k);
    }
  }

  /** A tail shorter than its alignment is cut by falling orders. */
  lemma {:induction false} FallingOrders(start: nat, n: nat, v: nat)
    requires v <= TOP && Aligned(start, v) && n < Pow2(v)
    ensures |Tile(start, n)| <= v
    decreases v
  {
    if n == 0 {
    } else {
      var k := Greedy(start, n, TOP);
      GreedyIsLargest(start, n, TOP);
      if v <= k {
        Pow2Monotonic(v, k);
      } else if k + 1 < v {
        LowerAlignment(start, k + 1, v);
        assert !Fits(start, n, k + 1);
      }
      assert n < 2 * Pow2(k);
      NextStart(start, k);
      FallingOrders(start + Pow2(k), n - Pow2(k), k);
    }
  }

  /** The first block of a cut has an order k at or above the alignment v; what is left goes on at a
      higher alignment, or ends with a short tail. */
  lemma NextOrder(start: nat, n: nat, v: nat) returns (k: nat, next: nat, left: nat)
    requires v <= TOP && Fits(start, n, v)
    ensures v <= k <= TOP && left < n && |Tile(start, n)| == 1 + |Tile(next, left)|
    ensures Aligned(next, k) && (k == TOP ==> left + 1024 == n)
    ensures k == TOP || Aligned(next, k + 1) || left < Pow2(k)
  {
    assert Pow2(v) > 0;
    k, next, left := FirstTile(start, n);
    GreedyIsLargest(start, n, TOP);
    GroupSize();
    NextStart(start, k);
    if k < TOP && Aligned(start, k + 1) {
      assert !Fits(start, n, k + 1);
    }
  }

  /** From alignment v on: rising orders, then whole groups of 1024, then falling orders. */
  lemma {:induction false} RisingOrders(start: nat, n: nat, v: nat)
    requires v <= TOP && Aligned(start, v)
    ensures |Tile(start, n)| <= (TOP - v) + TOP + n / 1024
    decreases n
  {
    if n < Pow2(v) {
      FallingOrders(start, n, v);
    } else {
      var k, next, left := NextOrder(start, n, v);
      if k == TOP {
        RisingOrders(next, left, k);
      } else if left < Pow2(k) {
        FallingOrders(next, left, k);
      } else {
        RisingOrders(next, left, k + 1);
      }
    }
  }

  lemma GroupSize()
    ensures Pow2(TOP) == 1024
  {
    assert Pow2(5) == 32;
    assert Pow2(10) == 1024;
  }

  /** A run of n pages costs at most 20 + n / 1024 calls of COMEX_free_page. */
  lemma TileIsShort(start: nat, n: nat)
    ensures |Tile(start, n)| <= 20 + n / 1024
  {
    assert Shl(start, 0) == start;
    RisingOrders(start, n, 0);
  }

  // ----- freeing a list of blocks -----

  /** The set of free blocks after the blocks of a list are freed one after the other. */
  ghost function MergeAll(blocks: set<Block>, list: seq<Block>): set<Block>
    requires forall b | b in list :: b.order <= TOP
    decreases |list|
  {
    if list == [] then blocks else MergeAll(Merge(blocks, list[0]), list[1..])
  }

  ghost function PagesOf(list: seq<Block>): set<nat>
    decreases |list|
  {
    if list == [] then {} else Pages(list[0]) + PagesOf(list[1..])
  }

  /** Well-formed blocks that share no page with each other or with the free pages. */
  ghost predicate Held(free: set<nat>, list: seq<Block>)
    decreases |list|
  {
    list == [] ||
    (WellFormed(list[0]) && Pages(list[0]) !! free && Held(free + Pages(list[0]), list[1..]))
  }

  /** Whatever the blocks and their order, the allocator ends up with the canonical form of the
      pages that are free then. */
  lemma {:induction false} MergeAllCanon(free: set<nat>, list: seq<Block>)
    requires Held(free, list) && forall b | b in list :: b.order <= TOP
    ensures MergeAll(Canon(free), list) == Canon(free + PagesOf(list))
    decreases |list|
  {
    if list == [] {
      assert free + PagesOf(list) == free;
    } else {
      MergeCanon(free, list[0]);
      MergeAllCanon(free + Pages(list[0]), list[1..]);
      assert free + Pages(list[0]) + PagesOf(list[1..]) == free + PagesOf(list);
    }
  }

  lemma {:induction false} TilesHeld(free: set<nat>, list: seq<Block>, start: nat, n: nat)
    requires Tiles(list, start, n) && Range(start, n) !! free
    ensures Held(free, list) && PagesOf(list) == Range(start, n)
    ensures forall b | b in list :: b.order <= TOP
    decreases |list|
  {
    if list == [] {
    } else {
      var m := Pow2(list[0].order);
      assert forall x: nat | x in Pages(list[0]) :: x in Range(start, n);
      assert forall x: nat | x in Range(start + m, n - m) :: x in Range(start, n) && x !in Pages(list[0]);
      TilesHeld(free + Pages(list[0]), list[1..], start + m, n - m);
      assert forall x: nat | x in Range(start, n) :: x in Pages(list[0]) || x in Range(start + m, n - m);
    }
  }

  /** The loop that the decomposition replaced: one page at a time. */
  ghost function Singles(start: nat, n: nat): seq<Block>
    decreases n
  {
    if n == 0 then [] else [Block(start, 0)] + Singles(start + 1, n - 1)
  }

  lemma {:induction false} SinglesTile(start: nat, n: nat)
    ensures Tiles(Singles(start, n), start, n)
    decreases n
  {
    if n == 0 {
    } else {
      SingletonPage(start);
      SinglesTile(start + 1, n - 1);
      assert Singles(start, n)[1..] == Singles(start + 1, n - 1);
      assert Pow2(0) == 1;
    }
  }

  /** Any way of cutting a held run into aligned blocks frees it to the same set of free blocks. */
  lemma CutDoesNotMatter(free: set<nat>, start: nat, n: nat, list: seq<Block>)
    requires Tiles(list, start, n) && Range(start, n) !! free
    ensures (forall b | b in list :: b.order <= TOP) && MergeAll(Canon(free), list) == Canon(free + Range(start, n))
  {
    TilesHeld(free, list, start, n);
    MergeAllCanon(free, list);
  }

  /** The decomposition leaves the same free blocks per order as the page-at-a-time loop. */
  lemma GreedyFreesLikePages(free: set<nat>, start: nat, n: nat)
    requires Range(start, n) !! free
    ensures forall b | b in Tile(start, n) || b in Singles(start, n) :: b.order <= TOP
    ensures MergeAll(Canon(free), Tile(start, n)) == MergeAll(Canon(free), Singles(start, n))
  {
    TileTiles(start, n);
    SinglesTile(start, n);
    CutDoesNotMatter(free, start, n, Tile(start, n));
    CutDoesNotMatter(free, start, n, Singles(start, n));
  }

  // ----- a whole message -----

  datatype Run = Run(start: nat, count: nat)

  ghost function RunPages(r: Run): set<nat> {
    Range(r.start, r.count)
  }

  ghost function RunsPages(runs: seq<Run>): set<nat>
    decreases |runs|
  {
    if runs == [] then {} else RunPages(runs[0]) + RunsPages(runs[1..])
  }

  /** The runs share no page with each other or with the free pages. */
  ghost predicate RunsHeld(free: set<nat>, runs: seq<Run>)
    decreases |runs|
  {
    runs == [] || (RunPages(runs[0]) !! free && RunsHeld(free + RunPages(runs[0]), runs[1..]))
  }

  /** Free every run of a message by some cut of each run. */
  ghost function TileAll(runs: seq<Run>): seq<Block>
    decreases |runs|
  {
    if runs == [] then [] else Tile(runs[0].start, runs[0].count) + TileAll(runs[1..])
  }

  ghost function SinglesAll(runs: seq<Run>): seq<Block>
    decreases |runs|
  {
    if runs == [] then [] else Singles(runs[0].start, runs[0].count) + SinglesAll(runs[1..])
  }

  lemma {:induction false} MergeAllConcat(blocks: set<Block>, a: seq<Block>, b: seq<Block>)
    requires (forall x | x in a :: x.order <= TOP) && (forall x | x in b :: x.order <= TOP)
    ensures forall x | x in a + b :: x.order <= TOP
    ensures MergeAll(blocks, a + b) == MergeAll(MergeAll(blocks, a), b)
    decreases |a|
  {
    if a == [] {
      assert a + b == b;
    } else {
      MergeAllConcat(Merge(blocks, a[0]), a[1..], b);
      assert (a + b)[1..] == a[1..] + b;
    }
  }

  /** For any message and any reachable allocator state, freeing the runs by aligned power-of-two
      blocks and freeing them page by page give the same set of free blocks. */
  lemma {:induction false} MessageFreesLikePages(free: set<nat>, runs: seq<Run>)
    requires RunsHeld(free, runs)
    ensures forall b | b in TileAll(runs) || b in SinglesAll(runs) :: b.order <= TOP
    ensures MergeAll(Canon(free), TileAll(runs)) == Canon(free + RunsPages(runs))
    ensures MergeAll(Canon(free), SinglesAll(runs)) == Canon(free + RunsPages(runs))
    decreases |runs|
  {
    if runs == [] {
      assert free + RunsPages(runs) == free;
    } else {
      var r, rest := runs[0], runs[1..];
      TileTiles(r.start, r.count);
      SinglesTile(r.start, r.count);
      CutDoesNotMatter(free, r.start, r.count, Tile(r.start, r.count));
      CutDoesNotMatter(free, r.start, r.count, Singles(r.start, r.count));
      MessageFreesLikePages(free + RunPages(r), rest);
      MergeAllConcat(Canon(free), Tile(r.start, r.count), TileAll(rest));
      MergeAllConcat(Canon(free), Singles(r.start, r.count), SinglesAll(rest));
      assert free + RunPages(r) + RunsPages(rest) == free + RunsPages(runs);
    }
  }

  // ----- COMEX_do_work -----

  lemma {:induction false} LowOfLow(x: nat, n: nat, k: nat)
    requires k <= n
    ensures LowBits(LowBits(x, n), k) == LowBits(x, k)
    decreases n
  {
    if k == 0 {
    } else {
      var low := LowBits(x, n);
      assert low == x % 2 + 2 * LowBits(x / 2, n - 1);
      assert low % 2 == x % 2 && low / 2 == LowBits(x / 2, n - 1);
      LowOfLow(x / 2, n - 1, k - 1);
    }
  }

  /** page_idx % (1 << pow) tells whether the page is aligned to 2^pow. */
  lemma IndexAligned(page: nat, pow: nat)
    requires pow <= TOP
    ensures LowBits(page, TOP) % Pow2(pow) == 0 <==> Aligned(page, pow)
  {
    LowBitsIsMod(LowBits(page, TOP), pow);
    LowOfLow(page, TOP, pow);
    AlignedIffLow(page, pow);
  }

  /** The inner loop: the largest block that fits the rest of the run. */
  method LargestOrder(page: nat, count: nat) returns (pow: nat)
    requires count > 0
    ensures pow == Greedy(page, count, TOP)
  {
    AndMask(page, TOP);
    var pageIdx := BitAnd(page, Pow2(COMEX_MAX_ORDER - 1) - 1);
    pow := COMEX_MAX_ORDER - 1;
    IndexAligned(page, pow);
    while Pow2(pow) > count || pageIdx % Pow2(pow) != 0
      invariant pow <= TOP && Greedy(page, count, TOP) == Greedy(page, count, pow)
      invariant pageIdx % Pow2(pow) == 0 <==> Aligned(page, pow)
      decreases pow
    {
      assert pow > 0 by {
        assert Pow2(0) == 1 && Shl(page, 0) == page;
      }
      pow := pow - 1;
      IndexAligned(page, pow);
    }
  }

  /** One turn of the loop over a slot: free the largest block that fits at the front of the run. */
  method FreeFront(b: BuddyAllocator, page: nat, count: nat) returns (size: nat)
    requires b.Valid() && count > 0 && page + count <= b.total && Range(page, count) !! b.Free()
    modifies b.Repr()
    ensures b.Valid() && 0 < size <= count
    ensures b.Free() == old(b.Free()) + Range(page, size)
    ensures size == Pow2(Tile(page, count)[0].order) && page == Tile(page, count)[0].start
  {
    var pow := LargestOrder(page, count);
    GreedyFits(page, count);
    RangeSplits(page, count, Pow2(pow));
    size := Pow2(pow);
    b.FreePage(page, pow);
  }

  /** The loop over one slot of the message; page and count are the handler's own copy of it. */
  method FreeSlot(b: BuddyAllocator, page0: int, count0: int)
    requires b.Valid() && SlotFits(b.total, page0, count0) && SlotPages(page0, count0) !! b.Free()
    modifies b.Repr()
    ensures b.Valid() && b.Free() == old(b.Free()) + SlotPages(page0, count0)
  {
    var page, count := page0, count0;
    while count > 0
      invariant b.Valid() && SlotFits(b.total, page, count) && SlotPages(page, count) !! b.Free()
      invariant b.Free() + SlotPages(page, count) == old(b.Free()) + SlotPages(page0, count0)
      decreases count
    {
      page, count := FreeTurn(b, page, count);
    }
  }

  /** One turn of that loop, with what it leaves of the slot. */
  method FreeTurn(b: BuddyAllocator, page0: int, count0: int) returns (page: int, count: int)
    requires b.Valid() && SlotFits(b.total, page0, count0) && SlotPages(page0, count0) !! b.Free() && count0 > 0
    modifies b.Repr()
    ensures b.Valid() && SlotFits(b.total, page, count) && SlotPages(page, count) !! b.Free() && 0 <= count < count0
    ensures b.Free() + SlotPages(page, count) == old(b.Free()) + SlotPages(page0, count0)
  {
    var size := FreeFront(b, page0, count0);
    SlotStep(old(b.Free()), page0, count0, size);
    page := page0 + size;
    count := count0 - size;
  }

  lemma SlotStep(free: set<nat>, page: nat, count: nat, size: nat)
    requires size <= count && SlotPages(page, count) !! free
    ensures SlotPages(page + size, count - size) !! free + Range(page, size)
    ensures free + Range(page, size) + SlotPages(page + size, count - size) == free + SlotPages(page, count)
  {
    RangeSplits(page, count, size);
  }

  /** What a slot of the message stands for. */
  ghost function SlotRun(page: int, count: int): Run {
    if count > 0 && page >= 0 then Run(page, count) else Run(0, 0)
  }

  ghost function SlotPages(page: int, count: int): set<nat> {
    RunPages(SlotRun(page, count))
  }

  ghost predicate SlotFits(total: nat, page: int, count: int) {
    count > 0 ==> page >= 0 && page + count <= total
  }

  /** The runs of the message in the slots from i on. */
  ghost function SlotRuns(pageNO: seq<int>, count: seq<int>, i: nat): seq<Run>
    requires |pageNO| == |count| && i <= |count|
    decreases |count| - i
  {
    if i == |count| then [] else [SlotRun(pageNO[i], count[i])] + SlotRuns(pageNO, count, i + 1)
  }

  /** COMEX_do_work on a PAGE_FREE message whose runs are held: exactly those pages become free. */
  method HandlePageFree(b: BuddyAllocator, pageNO: seq<int>, count: seq<int>)
    requires b.Valid() && |pageNO| == |count| == MAX_FREE
    requires forall i | 0 <= i < MAX_FREE :: SlotFits(b.total, pageNO[i], count[i])
    requires RunsHeld(b.Free(), SlotRuns(pageNO, count, 0))
    modifies b.Repr()
    ensures b.Valid() && b.Free() == old(b.Free()) + RunsPages(SlotRuns(pageNO, count, 0))
    ensures forall p: nat :: p in b.Free() <==>
      p in old(b.Free()) || exists i | 0 <= i < MAX_FREE :: pageNO[i] <= p < pageNO[i] + count[i]
  {
    for i := 0 to MAX_FREE
      invariant b.Valid()
      invariant RunsHeld(b.Free(), SlotRuns(pageNO, count, i))
      invariant b.Free() + RunsPages(SlotRuns(pageNO, count, i))
        == old(b.Free()) + RunsPages(SlotRuns(pageNO, count, 0))
    {
      ghost var free := b.Free();
      FirstSlot(free, pageNO, count, i);
      FreeSlot(b, pageNO[i], count[i]);
    }
    SlotsMean(b.total, pageNO, count, 0);
  }

  /** The pages of the runs are those the slots name. */
  lemma {:induction false} SlotsMean(total: nat, pageNO: seq<int>, count: seq<int>, i: nat)
    requires |pageNO| == |count| && i <= |count|
    requires forall j | 0 <= j < |count| :: SlotFits(total, pageNO[j], count[j])
    ensures forall p: nat :: p in RunsPages(SlotRuns(pageNO, count, i)) <==>
      exists j | i <= j < |count| :: pageNO[j] <= p < pageNO[j] + count[j]
    decreases |count| - i
  {
    if i == |count| {
    } else {
      SlotsMean(total, pageNO, count, i + 1);
      assert SlotFits(total, pageNO[i], count[i]);
      forall p: nat
        ensures p in RunsPages(SlotRuns(pageNO, count, i)) <==>
          exists j | i <= j < |count| :: pageNO[j] <= p < pageNO[j] + count[j]
      {
        SlotMeans(pageNO, count, i, p);
      }
    }
  }

  lemma SlotMeans(pageNO: seq<int>, count: seq<int>, i: nat, p: nat)
    requires |pageNO| == |count| && i < |count| && (count[i] > 0 ==> pageNO[i] >= 0)
    ensures p in RunsPages(SlotRuns(pageNO, count, i)) <==>
      pageNO[i] <= p < pageNO[i] + count[i] || p in RunsPages(SlotRuns(pageNO, count, i + 1))
  {
    assert SlotRuns(pageNO, count, i)[1..] == SlotRuns(pageNO, count, i + 1);
  }

  lemma FirstSlot(free: set<nat>, pageNO: seq<int>, count: seq<int>, i: nat)
    requires |pageNO| == |count| && i < |count| && RunsHeld(free, SlotRuns(pageNO, count, i))
    ensures SlotPages(pageNO[i], count[i]) !! free
    ensures RunsHeld(free + SlotPages(pageNO[i], count[i]), SlotRuns(pageNO, count, i + 1))
    ensures free + RunsPages(SlotRuns(pageNO, count, i))
         == free + SlotPages(pageNO[i], count[i]) + RunsPages(SlotRuns(pageNO, count, i + 1))
  {
    assert SlotRuns(pageNO, count, i)[1..] == SlotRuns(pageNO, count, i + 1);
  }

  lemma RangeSplits(start: nat, n: nat, m: nat)
    requires m <= n
    ensures Range(start, n) == Range(start, m) + Range(start + m, n - m)
    ensures Range(start, m) !! Range(start + m, n - m)
  {}
}

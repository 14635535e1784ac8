/** The buddy allocator itself: the page array, the free areas and the per-page counters. */
module BuddySystem {
  import opened Bits
  import opened Blocks
  import opened BlockIndex
  import opened Ancestors
  import opened FreeLists

  class BuddyAllocator {
    const total: nat             // COMEX_total_pages
    const table: ListTable       // the lru nodes and the free_list heads
    const mapcount: array<int>   // _mapcount
    const priv: array<int>       // private
    const cntr: array<int>       // CMX_cntr
    const nrFree: array<int>     // nr_free of each COMEX_free_area
    ghost var blocks: set<Block>

    /** The pages that no one holds. */
    ghost function Free(): set<nat>
      requires cntr.Length == total
      reads cntr
    {
      set p: nat | p < total && cntr[p] == 0
    }

    ghost predicate Apart()
      reads this
    {
      && mapcount.Length == priv.Length == cntr.Length == total
      && nrFree.Length == COMEX_MAX_ORDER
      && mapcount != priv && mapcount != cntr && mapcount != nrFree
      && priv != cntr && priv != nrFree && cntr != nrFree
    }

    ghost function Repr(): set<object>
      reads this
    {
      {this, table, table.next, table.prev, mapcount, priv, nrFree, cntr}
    }

    /** The heap holds exactly `blocks`: page p is marked -128 with private k, and is on the list
        of order k, exactly when it heads a block of order k. */
    ghost predicate Represents()
      reads this, table, table.next, table.prev, mapcount, priv, nrFree
    {
      && Apart()
      && table.Valid() && table.pages == total
      && (forall k | 0 <= k < COMEX_MAX_ORDER :: nrFree[k] == |table.lists[k]|)
      && (forall b | b in blocks :: b.start < total && b.order < COMEX_MAX_ORDER)
      && (forall k: nat, p: nat | k < COMEX_MAX_ORDER && p < total :: p in table.lists[k] <==> Block(p, k) in blocks)
      && (forall b | b in blocks :: mapcount[b.start] == -128 && priv[b.start] == b.order)
      && (forall p: nat | p < total ::
            if mapcount[p] == -128 then 0 <= priv[p] < COMEX_MAX_ORDER && Block(p, priv[p]) in blocks
            else mapcount[p] == -1 && priv[p] == 0)
    }

    ghost predicate Valid()
      reads this, table, table.next, table.prev, mapcount, priv, nrFree, cntr
    {
      && Represents()
      && Aligned(total, TOP)
      && (forall p | 0 <= p < total :: cntr[p] == 0 || cntr[p] == 1)
      && blocks == Canon(Free())
    }

    /** The page array as it is allocated: every page held, no list entry (comex_lib.h). */
    constructor (pages: nat)
      requires Aligned(pages, TOP)
      ensures Valid() && total == pages && Free() == {} && fresh(Repr() - {this})
    {
      total := pages;
      table := new ListTable(pages);
      mapcount := new int[pages](i => -1);
      priv := new int[pages](i => 0);
      cntr := new int[pages](i => 1);
      nrFree := new int[COMEX_MAX_ORDER](i => 0);
      blocks := {};
      new;
      assert Free() == {};
      assert Canon({}) == {};
    }

    lemma HeadRemoved(p: nat, k: nat)
      requires Represents() && k < COMEX_MAX_ORDER && table.lists[k] != [] && table.lists[k][0] == p
      ensures Removed(table.lists[k], p) == table.lists[k][1..]
    {}

    /** COMEX_list_del, COMEX_rmv_page_order and nr_free-- */
    method Unlink(p: nat, k: nat)
      requires Represents() && Block(p, k) in blocks
      modifies this`blocks, table, table.next, table.prev, mapcount, priv, nrFree
      ensures Represents() && blocks == old(blocks) - {Block(p, k)}
      ensures table.lists == old(table.lists)[k := Removed(old(table.lists[k]), p)]
    {
      ghost var i :| 0 <= i < |table.lists[k]| && table.lists[k][i] == p;
      RemovedAt(table.lists[k], i);
      ApartAfterDelete(total, table.lists, k, i);
      table.Delete(p, k, i);
      mapcount[p], priv[p] := -1, 0;
      nrFree[k] := nrFree[k] - 1;
      blocks := blocks - {Block(p, k)};
    }

    /** COMEX_set_page_order, COMEX_list_add or COMEX_list_add_tail, and nr_free++ */
    method Link(p: nat, k: nat, first: bool, ghost b: Block)
      requires Represents() && p < total && k < COMEX_MAX_ORDER && b == Block(p, k)
      requires NoHead(blocks, p)
      modifies this`blocks, table, table.next, table.prev, mapcount, priv, nrFree
      ensures Represents() && blocks == old(blocks) + {b}
      ensures table.lists ==
        old(table.lists)[k := if first then [p] + old(table.lists[k]) else old(table.lists[k]) + [p]]
    {
      assert !Listed(table.lists, p);
      if first {
        table.Add(p, k);
      } else {
        table.AddTail(p, k);
      }
      mapcount[p], priv[p] := -128, k;
      nrFree[k] := nrFree[k] + 1;
      blocks := blocks + {b};
      assert forall q :: q in table.lists[k] <==> q == p || q in old(table.lists[k]);
    }

    /** COMEX_expand: give the upper halves of a block of order `high` back, down to order `low`. */
    method Expand(page: nat, low: nat, high: nat)
      requires Represents() && low <= high <= TOP && page + Pow2(high) <= total
      requires NoHeads(blocks, page, Pow2(high))
      modifies this`blocks, table, table.next, table.prev, mapcount, priv, nrFree
      ensures Represents() && blocks == old(blocks) + Uppers(page, low, high)
      ensures table.lists == Expanded(old(table.lists), page, low, high)
    {
      var size := Pow2(high);
      var area := high;
      while area > low
        invariant low <= area <= high && size == Pow2(area) && page + size <= total
        invariant Represents() && NoHeads(blocks, page, size)
        invariant blocks == old(blocks) + Uppers(page, area, high)
        invariant table.lists == Expanded(old(table.lists), page, area, high)
      {
        area := area - 1;
        size := size / 2;
        ExpandTurn(page, size, area, high, old(blocks), old(table.lists));
      }
    }

    /** One turn of COMEX_expand, on top of those from order `high` down to the order above. */
    method ExpandTurn(page: nat, size: nat, area: nat, ghost high: nat, ghost base: set<Block>,
                      ghost lists: seq<seq<nat>>)
      requires Represents() && area < high <= TOP && size == Pow2(area) && page + 2 * size <= total
      requires NoHeads(blocks, page, 2 * size) && |lists| == COMEX_MAX_ORDER
      requires blocks == base + Uppers(page, area + 1, high) && table.lists == Expanded(lists, page, area + 1, high)
      modifies this`blocks, table, table.next, table.prev, mapcount, priv, nrFree
      ensures Represents() && NoHeads(blocks, page, size)
      ensures blocks == base + Uppers(page, area, high) && table.lists == Expanded(lists, page, area, high)
    {
      ghost var before, mid, upper := blocks, table.lists, Block(page + size, area);
      GiveHalf(page, size, area, upper);
      UppersStep(base, before, blocks, page, area, high, upper);
      ExpandedStep(lists, mid, table.lists, page, area, high, page + size);
    }

    /** The upper half goes to the front of its list. */
    method GiveHalf(page: nat, size: nat, area: nat, ghost upper: Block)
      requires Represents() && area < TOP && size == Pow2(area) && page + 2 * size <= total
      requires upper == Block(page + size, area) && NoHeads(blocks, page, 2 * size)
      modifies this`blocks, table, table.next, table.prev, mapcount, priv, nrFree
      ensures Represents() && blocks == old(blocks) + {upper} && NoHeads(blocks, page, size)
      ensures table.lists == InFront(old(table.lists), area, page + size)
    {
      NoHeadsHalf(blocks, page, size, upper);
      Link(page + size, area, true, upper);
    }

    /** COMEX_checkCtr: move the counter of every page of the block, stopping at the first page
        whose counter was not where the caller expected it. */
    method CheckCtr(pageNO: nat, order: nat, val: int) returns (ok: bool, ghost bad: nat)
      requires Apart() && val in {1, -1} && pageNO + Pow2(order) <= total
      modifies cntr
      ensures ok <==> forall p | pageNO <= p < pageNO + Pow2(order) :: old(cntr[p]) == (if val == 1 then 0 else 1)
      ensures ok ==> forall p | 0 <= p < total ::
        cntr[p] == old(cntr[p]) + if pageNO <= p < pageNO + Pow2(order) then val else 0
      ensures !ok ==>
        && pageNO <= bad < pageNO + Pow2(order) && old(cntr[bad]) != (if val == 1 then 0 else 1)
        && (forall p | pageNO <= p < bad :: old(cntr[p]) == if val == 1 then 0 else 1)
        && (forall p | 0 <= p < total :: cntr[p] == old(cntr[p]) + if pageNO <= p <= bad then val else 0)
    {
      var expected := if val == 1 then 1 else 0;
      var i := 0;
      bad := 0;
      while i < Pow2(order)
        invariant 0 <= i <= Pow2(order)
        invariant forall p | pageNO <= p < pageNO + i :: old(cntr[p]) + val == expected
        invariant forall p | 0 <= p < total :: cntr[p] == old(cntr[p]) + if pageNO <= p < pageNO + i then val else 0
      {
        cntr[pageNO + i] := cntr[pageNO + i] + val;
        if cntr[pageNO + i] != expected {
          return false, pageNO + i;
        }
        i := i + 1;
      }
      ok := true;
    }

    /** COMEX_rmqueue_smallest: take a block of 2^order pages off the smallest list that has one. */
    method RmqueueSmallest(order: nat) returns (r: int)
      requires Valid()
      modifies this`blocks, table, table.next, table.prev, mapcount, priv, nrFree, cntr
      ensures Valid()
      ensures r == -1 <==> !HasRun(old(Free()), order)
      ensures r == -1 ==> Free() == old(Free()) && table.lists == old(table.lists)
      ensures r != -1 ==>
        && r >= 0 && WellFormed(Block(r, order)) && Pages(Block(r, order)) <= old(Free())
        && Free() == old(Free()) - Pages(Block(r, order))
      ensures r != -1 ==> exists k | order <= k < COMEX_MAX_ORDER ::
        && old(table.lists)[k] != [] && old(table.lists)[k][0] == r
        && (forall j | order <= j < k :: old(table.lists)[j] == [])
        && table.lists == Expanded(old(table.lists)[k := old(table.lists)[k][1..]], r, order, k)
    {
      var current := order;
      while current < COMEX_MAX_ORDER
        invariant unchanged(this, table, table.next, table.prev, mapcount, priv, nrFree, cntr)
        invariant forall j | order <= j < current && j < COMEX_MAX_ORDER :: table.lists[j] == []
        decreases COMEX_MAX_ORDER - current
      {
        var empty := table.Empty(current);
        if empty {
          current := current + 1;
          continue;
        }
        var page := table.First(current);
        SomeBlock(order, current, page);
        r := Detach(page, order, current);
        return;
      }
      NoBlock(order);
      r := -1;
    }

    lemma SomeBlock(order: nat, current: nat, page: nat)
      requires Valid() && order <= current < COMEX_MAX_ORDER
      requires table.lists[current] != [] && table.lists[current][0] == page
      ensures Block(page, current) in blocks && HasRun(Free(), order)
    {
      assert page in table.lists[current];
      RunExists(Free(), order);
      assert Block(page, current).order >= order;
    }

    lemma NoBlock(order: nat)
      requires Valid()
      requires forall j | order <= j < COMEX_MAX_ORDER :: table.lists[j] == []
      ensures !HasRun(Free(), order)
    {
      RunExists(Free(), order);
      forall c | c in blocks
        ensures c.order < order
      {
        assert c == Block(c.start, c.order);
        assert c.start in table.lists[c.order];
      }
    }

    /** The part of COMEX_rmqueue_smallest after a list entry was found. */
    method Detach(page: nat, order: nat, current: nat) returns (r: int)
      requires Valid() && order <= current < COMEX_MAX_ORDER && Block(page, current) in blocks
      requires table.lists[current] != [] && table.lists[current][0] == page
      modifies this`blocks, table, table.next, table.prev, mapcount, priv, nrFree, cntr
      ensures Valid() && r == page
      ensures WellFormed(Block(page, order)) && Pages(Block(page, order)) <= old(Free())
      ensures Free() == old(Free()) - Pages(Block(page, order))
      ensures table.lists == Expanded(old(table.lists)[current := old(table.lists)[current][1..]], page, order, current)
    {
      ghost var free, part := Free(), Block(page, order);
      TakeFacts(free, total, page, order, current);
      HeadRemoved(page, current);
      Unlink(page, current);
      Expand(page, order, current);
      assert blocks == Canon(free - Pages(part));
      var ok := TakePages(page, order);
      r := if ok then page else -1;
    }

    /** The counter check of an allocation, on a free block. */
    method TakePages(page: nat, order: nat) returns (ok: bool)
      requires Apart() && page + Pow2(order) <= total && Pages(Block(page, order)) <= Free()
      requires forall p | 0 <= p < total :: cntr[p] == 0 || cntr[p] == 1
      modifies cntr
      ensures ok && Free() == old(Free()) - Pages(Block(page, order))
      ensures forall p | 0 <= p < total :: cntr[p] == 0 || cntr[p] == 1
    {
      forall p | page <= p < page + Pow2(order)
        ensures cntr[p] == 0
      {
        assert p in Pages(Block(page, order));
      }
      ghost var bad;
      ok, bad := CheckCtr(page, order, 1);
    }

    /** What a refused release leaves of the counters: the first page that was free already is at -1; the
        held pages in front of it are at 0, but in no free block, so they are lost to the allocator;
        every other counter is as it was. */
    twostate predicate RefusedAt(inPageNO: nat, bad: nat)
      requires Apart() && old(Apart()) && bad < total
      reads this, cntr
    {
      && cntr[bad] == -1
      && (forall p: nat | inPageNO <= p < bad :: old(cntr[p]) == 1 && cntr[p] == 0)
      && (forall p: nat | p < total && !(inPageNO <= p <= bad) :: cntr[p] == old(cntr[p]))
    }

    /** COMEX_free_page: take every page of the block back and merge with free buddies.  A block
        with a page that is already free is refused, and the refusal leaves that page's counter
        below zero. */
    method FreePage(inPageNO: nat, inOrder: nat)
      requires Valid() && WellFormed(Block(inPageNO, inOrder)) && inPageNO < total
      modifies this`blocks, table, table.next, table.prev, mapcount, priv, nrFree, cntr
      ensures Represents()
      ensures Pages(Block(inPageNO, inOrder)) !! old(Free()) ==>
        && Valid() && Free() == old(Free()) + Pages(Block(inPageNO, inOrder))
        && table.lists == MergedLists(old(blocks), old(table.lists), Block(inPageNO, inOrder))
      ensures !(Pages(Block(inPageNO, inOrder)) !! old(Free())) ==>
        && blocks == old(blocks) && table.lists == old(table.lists)
        && exists bad: nat | bad in Pages(Block(inPageNO, inOrder)) && bad in old(Free()) :: RefusedAt(inPageNO, bad)
    {
      ghost var b, free := Block(inPageNO, inOrder), Free();
      InsidePool(total, b);
      var ok, bad := CheckCtr(inPageNO, inOrder, -1);
      if !ok {
        assert bad in Pages(b) && bad in free && RefusedAt(inPageNO, bad);
        return;
      }
      assert Pages(b) !! free;
      MergeCanon(free, b);
      HeldHeadsNothing(free, inPageNO);
      MergeUp(inPageNO, inOrder);
      assert Free() == free + Pages(b);
    }

    /** The merge loop of COMEX_free_page. */
    method MergeUp(inPageNO: nat, inOrder: nat)
      requires Represents() && Aligned(total, TOP)
      requires WellFormed(Block(inPageNO, inOrder)) && inPageNO < total
      requires NoHead(blocks, inPageNO)
      modifies this`blocks, table, table.next, table.prev, mapcount, priv, nrFree
      ensures Represents() && blocks == Merge(old(blocks), Block(inPageNO, inOrder))
      ensures table.lists == MergedLists(old(blocks), old(table.lists), Block(inPageNO, inOrder))
    {
      var page: nat, order := inPageNO, inOrder;
      var pageIdx := PageIndex(page);
      ghost var b := Block(page, order);
      while order < COMEX_MAX_ORDER - 1
        invariant Represents()
        invariant b == Block(page, order) && WellFormed(b) && page < total
        invariant pageIdx == LowBits(page, COMEX_MAX_ORDER)
        invariant NoHead(blocks, page)
        invariant Merge(blocks, b) == Merge(old(blocks), Block(inPageNO, inOrder))
        invariant MergedLists(blocks, table.lists, b)
               == MergedLists(old(blocks), old(table.lists), Block(inPageNO, inOrder))
        decreases COMEX_MAX_ORDER - order
      {
        var buddy, isBuddy := FindBuddy(page, pageIdx, order);
        if !isBuddy {
          break;
        }
        MergeUnfold(blocks, table.lists, b);
        Absorb(page, buddy, order);
        page, pageIdx := CombinedPage(page, pageIdx, order);
        order := order + 1;
        b := Parent(b);
      }
      Link(page, order, false, b);
    }

    /** COMEX_page_is_buddy, on the page where the buddy would start. */
    method FindBuddy(page: nat, pageIdx: nat, order: nat) returns (buddy: nat, isBuddy: bool)
      requires Represents() && Aligned(total, TOP) && order < TOP
      requires WellFormed(Block(page, order)) && page < total && pageIdx == LowBits(page, COMEX_MAX_ORDER)
      ensures buddy == Buddy(Block(page, order)).start < total
      ensures Buddy(Block(page, order)) == Block(buddy, order)
      ensures Parent(Block(page, order)).start < total && WellFormed(Parent(Block(page, order)))
      ensures Parent(Block(page, order)).start == page || Parent(Block(page, order)).start == buddy
      ensures isBuddy <==> Buddy(Block(page, order)) in blocks
    {
      BuddyInsidePool(total, Block(page, order));
      buddy := BuddyPage(page, pageIdx, order);
      isBuddy := mapcount[buddy] == -128 && priv[buddy] == order;
    }

    /** The buddy leaves its list, and neither half is marked any more. */
    method Absorb(page: nat, buddy: nat, order: nat)
      requires Represents() && Block(buddy, order) in blocks && page < total && NoHead(blocks, page)
      modifies this`blocks, table, table.next, table.prev, mapcount, priv, nrFree
      ensures Represents() && blocks == old(blocks) - {Block(buddy, order)}
      ensures table.lists == old(table.lists)[order := Removed(old(table.lists[order]), buddy)]
      ensures NoHead(blocks, page) && NoHead(blocks, buddy)
    {
      Unlink(buddy, order);
      mapcount[page], priv[page] := -1, 0;
    }
  }

  lemma MergeUnfold(blocks: set<Block>, lists: seq<seq<nat>>, b: Block)
    requires b.order < TOP && Buddy(b) in blocks && |lists| == COMEX_MAX_ORDER
    ensures Parent(b).order == b.order + 1
    ensures Merge(blocks, b) == Merge(blocks - {Buddy(b)}, Parent(b))
    ensures MergedLists(blocks, lists, b)
         == MergedLists(blocks - {Buddy(b)}, lists[b.order := Removed(lists[b.order], Buddy(b).start)], Parent(b))
  {}

  /** page_idx = pageNO & ((1 << COMEX_MAX_ORDER) - 1) */
  method PageIndex(page: nat) returns (idx: nat)
    ensures idx == LowBits(page, COMEX_MAX_ORDER)
  {
    AndMask(page, COMEX_MAX_ORDER);
    idx := BitAnd(page, Pow2(COMEX_MAX_ORDER) - 1);
  }

  /** buddy_idx = page_idx ^ (1 << order); buddy = page + (buddy_idx - page_idx) */
  method BuddyPage(page: nat, pageIdx: nat, order: nat) returns (buddy: nat)
    requires Aligned(page, order) && order < COMEX_MAX_ORDER && pageIdx == LowBits(page, COMEX_MAX_ORDER)
    ensures buddy == Buddy(Block(page, order)).start
  {
    BuddyIndex(page, COMEX_MAX_ORDER, order);
    var buddyIdx := BitXor(pageIdx, Pow2(order));
    buddy := page + (buddyIdx - pageIdx);
  }

  /** combined_idx = page_idx & ~(1 << order); page = page + (combined_idx - page_idx) */
  method CombinedPage(page: nat, pageIdx: nat, order: nat) returns (combined: nat, combinedIdx: nat)
    requires Aligned(page, order) && order < COMEX_MAX_ORDER && pageIdx == LowBits(page, COMEX_MAX_ORDER)
    ensures combined == Parent(Block(page, order)).start
    ensures combinedIdx == LowBits(combined, COMEX_MAX_ORDER)
  {
    ParentIndex(page, COMEX_MAX_ORDER, order);
    ParentLow(page, COMEX_MAX_ORDER, order);
    combinedIdx := BitAndNot(pageIdx, Pow2(order));
    combined := page + (combinedIdx - pageIdx);
  }

  // ----- what happens to the lists -----

  /** The list without the first x on it; the others keep their order. */
  ghost function Removed(s: seq<nat>, x: nat): seq<nat> {
    if s == [] then [] else if s[0] == x then s[1..] else [s[0]] + Removed(s[1..], x)
  }

  lemma {:induction false} RemovedAt(s: seq<nat>, i: nat)
    requires Distinct(s) && i < |s|
    ensures Removed(s, s[i]) == s[..i] + s[i + 1..]
    decreases |s|
  {
    if i == 0 {
    } else {
      assert s[0] != s[i];
      DistinctTail(s);
      RemovedAt(s[1..], i - 1);
      CutBehind(s, i);
    }
  }

  lemma CutBehind(s: seq<nat>, i: nat)
    requires 0 < i < |s|
    ensures s[1..][i - 1] == s[i]
    ensures [s[0]] + (s[1..][..i - 1] + s[1..][i - 1 + 1..]) == s[..i] + s[i + 1..]
  {}

  lemma DistinctTail(s: seq<nat>)
    requires Distinct(s) && s != []
    ensures Distinct(s[1..])
  {
    assert forall i | 0 <= i < |s| - 1 :: s[1..][i] == s[i + 1];
  }

  /** The lists after a split of the block at `page` from order `high` down to order `low`. */
  ghost function Expanded(lists: seq<seq<nat>>, page: nat, low: nat, high: nat): (r: seq<seq<nat>>)
    requires |lists| == COMEX_MAX_ORDER && high < COMEX_MAX_ORDER
    ensures |r| == COMEX_MAX_ORDER
    decreases high - low
  {
    if high <= low then lists
    else Expanded(lists, page, low + 1, high)[low := [page + Pow2(low)] + lists[low]]
  }

  /** Each upper half goes to the front of the list of its order. */
  lemma {:induction false} ExpandedAt(lists: seq<seq<nat>>, page: nat, low: nat, high: nat, j: nat)
    requires |lists| == COMEX_MAX_ORDER && high < COMEX_MAX_ORDER && j < COMEX_MAX_ORDER
    ensures Expanded(lists, page, low, high)[j] == if low <= j < high then [page + Pow2(j)] + lists[j] else lists[j]
    decreases high - low
  {
    if high <= low {
    } else {
      ExpandedAt(lists, page, low + 1, high, j);
    }
  }

  ghost function InFront(lists: seq<seq<nat>>, k: nat, x: nat): (r: seq<seq<nat>>)
    requires k < |lists|
    ensures |r| == |lists|
  {
    lists[k := [x] + lists[k]]
  }

  lemma ExpandedStep(lists: seq<seq<nat>>, mid: seq<seq<nat>>, after: seq<seq<nat>>, page: nat, low: nat, high: nat,
                     x: nat)
    requires |lists| == |mid| == COMEX_MAX_ORDER && low < high < COMEX_MAX_ORDER && x == page + Pow2(low)
    requires mid == Expanded(lists, page, low + 1, high) && after == InFront(mid, low, x)
    ensures after == Expanded(lists, page, low, high)
  {
    ExpandedAt(lists, page, low + 1, high, low);
  }

  /** The lists after block b was freed: each order on the way up loses just the buddy, and the merged block
      goes to the end of its list. */
  ghost function MergedLists(blocks: set<Block>, lists: seq<seq<nat>>, b: Block): (r: seq<seq<nat>>)
    requires |lists| == COMEX_MAX_ORDER && b.order <= TOP
    ensures |r| == COMEX_MAX_ORDER
    decreases TOP - b.order
  {
    if b.order < TOP && Buddy(b) in blocks
    then MergedLists(blocks - {Buddy(b)}, lists[b.order := Removed(lists[b.order], Buddy(b).start)], Parent(b))
    else lists[b.order := lists[b.order] + [b.start]]
  }

  /** List by list: the merged block is put at the end of the list of its order, the list of each order merged
      on the way has lost its buddy, and all others are as before. */
  lemma {:induction false} MergedListsMeans(blocks: set<Block>, lists: seq<seq<nat>>, b: Block) returns (top: nat)
    requires |lists| == COMEX_MAX_ORDER && WellFormed(b)
    ensures var after := MergedLists(blocks, lists, b);
      && b.order <= top <= TOP
      && (top == TOP || Buddy(Ancestor(b, top)) !in blocks)
      && after[top] == lists[top] + [Ancestor(b, top).start]
      && (forall k | b.order <= k < top ::
            Buddy(Ancestor(b, k)) in blocks && after[k] == Removed(lists[k], Buddy(Ancestor(b, k)).start))
      && forall k | 0 <= k < COMEX_MAX_ORDER && !(b.order <= k <= top) :: after[k] == lists[k]
    decreases TOP - b.order
  {
    if b.order < TOP && Buddy(b) in blocks {
      HalfStarts(b);
      var p := Parent(b);
      var less, cut := blocks - {Buddy(b)}, lists[b.order := Removed(lists[b.order], Buddy(b).start)];
      top := MergedListsMeans(less, cut, p);
      forall k | b.order < k <= top
        ensures Ancestor(p, k) == Ancestor(b, k) && Buddy(Ancestor(b, k)).order == k
      {
        AncestorOfParent(b, k);
        AncestorHolds(b, k);
        HalfStarts(Ancestor(b, k));
      }
    } else {
      top := b.order;
    }
  }

  /** Page p heads no block of the set. */
  ghost predicate NoHead(blocks: set<Block>, p: nat) {
    forall j: nat :: Block(p, j) !in blocks
  }

  /** None of the n pages from lo on heads a block of the set. */
  ghost predicate NoHeads(blocks: set<Block>, lo: nat, n: nat) {
    forall x: nat | lo <= x < lo + n :: NoHead(blocks, x)
  }

  lemma NoHeadsHalf(blocks: set<Block>, lo: nat, half: nat, upper: Block)
    requires NoHeads(blocks, lo, 2 * half) && half > 0 && upper.start == lo + half
    ensures NoHead(blocks, lo + half)
    ensures NoHeads(blocks + {upper}, lo, half)
  {
    var more := blocks + {upper};
    forall x: nat | lo <= x < lo + half
      ensures NoHead(more, x)
    {
      assert NoHead(blocks, x);
    }
  }

  /** The blocks COMEX_expand gives back: the upper halves of orders high - 1 down to low. */
  ghost function Uppers(page: nat, low: nat, high: nat): set<Block>
    decreases high - low
  {
    if high <= low then {} else Uppers(page, low + 1, high) + {Block(page + Pow2(low), low)}
  }

  /** A page that is not free heads no free block. */
  lemma HeldHeadsNothing(free: set<nat>, p: nat)
    requires p !in free
    ensures NoHead(Canon(free), p)
  {
    forall j: nat
      ensures Block(p, j) !in Canon(free)
    {
      InCanon(free, Block(p, j));
      assert p in Pages(Block(p, j));
    }
  }

  /** Splitting a canonical block leaves the canonical form of the pages that stay free. */
  lemma {:induction false} SplitCanon(free: set<nat>, page: nat, low: nat, high: nat)
    requires low <= high && WellFormed(Block(page, high)) && Pages(Block(page, high)) <= free
    ensures WellFormed(Block(page, low)) && Pages(Block(page, low)) <= Pages(Block(page, high))
    ensures Canon(free - Pages(Block(page, high))) + Uppers(page, low, high) == Canon(free - Pages(Block(page, low)))
    decreases high - low
  {
    if low < high {
      SplitCanon(free, page, low + 1, high);
      SplitOnce(free, page, low);
      UpperStart(page, low);
      LowerHalf(page, low);
      Add(Canon(free - Pages(Block(page, high))), Uppers(page, low + 1, high), {Block(page + Pow2(low), low)});
    }
  }

  lemma LowerHalf(page: nat, low: nat)
    requires WellFormed(Block(page, low + 1))
    ensures WellFormed(Block(page, low)) && Pages(Block(page, low)) <= Pages(Block(page, low + 1))
    ensures Parent(Block(page, low)) == Block(page, low + 1)
  {
    var lower := LeftHalf(Block(page, low + 1));
    Halves(lower);
  }

  lemma UppersStep(base: set<Block>, before: set<Block>, after: set<Block>,
                   page: nat, low: nat, high: nat, upper: Block)
    requires low < high && upper == Block(page + Pow2(low), low)
    requires before == base + Uppers(page, low + 1, high) && after == before + {upper}
    ensures after == base + Uppers(page, low, high)
  {
    assert Uppers(page, low, high) == Uppers(page, low + 1, high) + {upper};
  }

  lemma Add(s: set<Block>, t: set<Block>, u: set<Block>)
    ensures s + t + u == s + (t + u)
  {}

  lemma UpperStart(page: nat, low: nat)
    requires WellFormed(Block(page, low + 1))
    ensures Buddy(Block(page, low)) == Block(page + Pow2(low), low)
  {
    LowerHalf(page, low);
    HalfStarts(Block(page, low));
  }

  lemma SplitOnce(free: set<nat>, page: nat, low: nat)
    requires WellFormed(Block(page, low + 1)) && Pages(Block(page, low + 1)) <= free
    ensures Canon(free - Pages(Block(page, low)))
         == Canon(free - Pages(Block(page, low + 1))) + {Buddy(Block(page, low))}
  {
    LowerHalf(page, low);
    SplitHalves(free, Block(page, low + 1), Block(page, low));
  }

  lemma SplitHalves(free: set<nat>, whole: Block, lower: Block)
    requires WellFormed(whole) && WellFormed(lower) && whole == Parent(lower) && lower.order == whole.order - 1
    requires Pages(whole) <= free
    ensures Canon(free - Pages(lower)) == Canon(free - Pages(whole)) + {Buddy(lower)}
  {
    var rest := free - Pages(whole);
    Halves(lower);
    Halves(Buddy(lower));
    assert rest + Pages(Buddy(lower)) == free - Pages(lower);
    InsertCanon(rest, Buddy(lower));
  }

  /** What an allocation from the block (page, current) needs to know and leaves behind. */
  lemma TakeFacts(free: set<nat>, total: nat, page: nat, order: nat, current: nat)
    requires Block(page, current) in Canon(free) && order <= current
    requires Aligned(total, TOP) && page < total
    ensures WellFormed(Block(page, order)) && Pages(Block(page, order)) <= free
    ensures current <= TOP && page + Pow2(current) <= total && page + Pow2(order) <= total
    ensures NoHeads(Canon(free) - {Block(page, current)}, page, Pow2(current))
    ensures Canon(free) - {Block(page, current)} + Uppers(page, order, current)
      == Canon(free - Pages(Block(page, order)))
  {
    var whole := Block(page, current);
    RemoveCanon(free, whole);
    SplitCanon(free, page, order, current);
    InsidePool(total, whole);
    InsidePool(total, Block(page, order));
    forall x: nat | page <= x < page + Pow2(current)
      ensures NoHead(Canon(free - Pages(whole)), x)
    {
      assert x in Pages(whole);
      HeldHeadsNothing(free - Pages(whole), x);
    }
  }
}

/** The borrower's queue of page groups for one lender. */
module GroupQueue {
  import opened Bits

  /** page_start .. page_end, both included */
  datatype Group = Group(pageStart: nat, pageEnd: nat)

  /** lo, lo + 1, ..., lo + n - 1 */
  ghost function Span(lo: nat, n: nat): seq<nat>
    decreases n
  {
    if n == 0 then [] else [lo] + Span(lo + 1, n - 1)
  }

  lemma {:induction false} SpanAt(lo: nat, n: nat)
    ensures |Span(lo, n)| == n && forall i | 0 <= i < n :: Span(lo, n)[i] == lo + i
    decreases n
  {
    if n == 0 {
    } else {
      SpanAt(lo + 1, n - 1);
    }
  }

  ghost predicate NonEmpty(g: Group) {
    g.pageStart <= g.pageEnd
  }

  ghost function GroupPages(g: Group): seq<nat>
    requires NonEmpty(g)
  {
    Span(g.pageStart, g.pageEnd - g.pageStart + 1)
  }

  ghost predicate WellFormedQueue(groups: seq<Group>) {
    forall g | g in groups :: NonEmpty(g)
  }

  /** The queued pages in the order they will be handed out. */
  ghost function Flatten(groups: seq<Group>): seq<nat>
    requires WellFormedQueue(groups)
  {
    if groups == [] then [] else GroupPages(groups[0]) + Flatten(groups[1..])
  }

  /** The queue after a group arrived at its tail. */
  function Arrive(groups: seq<Group>, pageNO: nat, size: nat): seq<Group> {
    groups + [Group(pageNO, pageNO + Pow2(size) - 1)]
  }

  /** The queue after the first page was taken. */
  function Pop(groups: seq<Group>): seq<Group>
    requires groups != []
  {
    var g := groups[0];
    if g.pageStart + 1 > g.pageEnd then groups[1..]
    else [Group(g.pageStart + 1, g.pageEnd)] + groups[1..]
  }

  lemma {:induction false} FlattenConcat(a: seq<Group>, b: seq<Group>)
    requires WellFormedQueue(a) && WellFormedQueue(b)
    ensures WellFormedQueue(a + b) && Flatten(a + b) == Flatten(a) + Flatten(b)
    decreases |a|
  {
    if a == [] {
      assert a + b == b;
    } else {
      FlattenConcat(a[1..], b);
      assert (a + b)[1..] == a[1..] + b;
    }
  }

  /** Arrivals append the 2^size pages of the group, in order. */
  lemma ArriveAppends(groups: seq<Group>, pageNO: nat, size: nat)
    requires WellFormedQueue(groups)
    ensures WellFormedQueue(Arrive(groups, pageNO, size))
    ensures Flatten(Arrive(groups, pageNO, size))
         == Flatten(groups) + Span(pageNO, Pow2(size))
  {
    var g := Group(pageNO, pageNO + Pow2(size) - 1);
    FlattenConcat(groups, [g]);
    assert Flatten([g]) == GroupPages(g);
  }

  lemma Concat(a: seq<nat>, b: seq<nat>, c: seq<nat>)
    ensures a + b + c == a + (b + c) && |b + c| == |b| + |c|
  {}

  /** The pages that arrived are those handed out and those that wait, also after an arrival. */
  lemma ArriveTwice(arrived: seq<Group>, handed: seq<nat>, groups: seq<Group>, pageNO: nat, size: nat)
    requires WellFormedQueue(arrived) && WellFormedQueue(groups) && Flatten(arrived) == handed + Flatten(groups)
    ensures WellFormedQueue(Arrive(arrived, pageNO, size)) && WellFormedQueue(Arrive(groups, pageNO, size))
    ensures Flatten(Arrive(arrived, pageNO, size)) == handed + Flatten(Arrive(groups, pageNO, size))
    ensures |Flatten(Arrive(groups, pageNO, size))| == |Flatten(groups)| + Pow2(size)
  {
    ArriveAppends(arrived, pageNO, size);
    ArriveAppends(groups, pageNO, size);
    SpanAt(pageNO, Pow2(size));
    Concat(handed, Flatten(groups), Span(pageNO, Pow2(size)));
  }

  /** Taking a page removes the first page of the queue and leaves no empty group behind. */
  lemma PopTakesFirst(groups: seq<Group>)
    requires WellFormedQueue(groups) && groups != []
    ensures WellFormedQueue(Pop(groups)) && Flatten(groups) != []
    ensures groups[0].pageStart == Flatten(groups)[0] && Flatten(Pop(groups)) == Flatten(groups)[1..]
  {
    var g, rest := groups[0], groups[1..];
    assert NonEmpty(g);
    var tail := Span(g.pageStart + 1, g.pageEnd - g.pageStart);
    assert GroupPages(g) == [g.pageStart] + tail;
    PopSplit(tail, Flatten(rest), g.pageStart);
    if g.pageStart + 1 <= g.pageEnd {
      assert Pop(groups)[1..] == rest;
      assert GroupPages(Group(g.pageStart + 1, g.pageEnd)) == tail;
    } else {
      assert tail + Flatten(rest) == Flatten(rest);
    }
  }

  /** The first page that waits is the first page of the first group. */
  lemma FirstWaiting(groups: seq<Group>)
    requires WellFormedQueue(groups) && groups != []
    ensures Flatten(groups) != [] && Flatten(groups)[0] == groups[0].pageStart
  {
    PopTakesFirst(groups);
  }

  lemma PopSplit(a: seq<nat>, b: seq<nat>, x: nat)
    ensures [x] + a + b == [x] + (a + b) && ([x] + (a + b))[1..] == a + b
    ensures ([x] + (a + b))[0] == x
  {}

  lemma EmptyFlatten(groups: seq<Group>)
    requires WellFormedQueue(groups)
    ensures groups == [] <==> Flatten(groups) == []
  {
    if groups != [] {
      assert |GroupPages(groups[0])| > 0;
    }
  }

  /** COMEX_R_free_group_t */
  class FreeGroup {
    var totalPage: int
    var backOff: int
    var groups: seq<Group>
    ghost var arrived: seq<Group> // every group that ever arrived, in order
    ghost var handed: seq<nat>    // every page handed out, in order

    ghost predicate Valid()
      reads this
    {
      && WellFormedQueue(groups)
      && totalPage == |Flatten(groups)|
      && WellFormedQueue(arrived) && Flatten(arrived) == handed + Flatten(groups)
    }

    constructor ()
      ensures Valid() && groups == [] && backOff == 0 && arrived == []
    {
      totalPage, backOff, groups := 0, 0, [];
      arrived, handed := [], [];
    }

    /** COMEX_page_receive */
    method PageReceive(pageNO: int, groupSize: nat, refill: int)
      requires Valid()
      modifies this
      ensures Valid() && handed == old(handed)
      ensures groups == if pageNO >= 0 then Arrive(old(groups), pageNO, groupSize) else old(groups)
      ensures arrived == if pageNO >= 0 then Arrive(old(arrived), pageNO, groupSize) else old(arrived)
      ensures backOff == if groupSize <= refill - 2 || pageNO < 0 then 100000 else 0
    {
      if pageNO >= 0 {
        ArriveTwice(arrived, handed, groups, pageNO, groupSize);
        groups := Arrive(groups, pageNO, groupSize);
        totalPage := totalPage + Pow2(groupSize);
        backOff := 0;
        arrived := Arrive(arrived, pageNO, groupSize);
      }
      if groupSize <= refill - 2 || pageNO < 0 {
        backOff := 100000;
      }
    }

    /** COMEX_freelist_getpage, behind its caller's guard total_page > 0. */
    method GetPage() returns (pageNO: nat)
      requires Valid() && totalPage > 0
      modifies this`groups, this`totalPage, this`handed
      ensures Valid() && old(groups) != [] && groups == Pop(old(groups))
      ensures pageNO == old(groups)[0].pageStart && old(Flatten(groups)) == [pageNO] + Flatten(groups)
      ensures handed == old(handed) + [pageNO] && totalPage == old(totalPage) - 1
    {
      EmptyFlatten(groups);
      PopTakesFirst(groups);
      pageNO := groups[0].pageStart;
      groups := Pop(groups);
      totalPage := totalPage - 1;
      handed := handed + [pageNO];
    }
  }
}

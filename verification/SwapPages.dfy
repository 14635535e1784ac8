/** The continuation pages of one page of the swap_map, and the carry and borrow loops over them. */
module SwapPages {
  import opened Common
  import opened SwapDigits

  type Byte = x: int | 0 <= x < 256

  type Page = array<Byte>

  /** Whole pages, all distinct. */
  ghost predicate PageList(list: seq<Page>) {
    && (forall i | 0 <= i < |list| :: list[i].Length == PAGE_SIZE)
    && (forall i, j | 0 <= i < j < |list| :: list[i] != list[j])
  }

  /** The continuation bytes of one offset within the page. */
  ghost function Column(list: seq<Page>, at: nat): seq<nat>
    requires PageList(list) && at < PAGE_SIZE
    reads list
  {
    seq(|list|, i requires 0 <= i < |list| reads list => list[i][at])
  }

  /** Only the bytes at one offset may have changed. */
  twostate predicate OnlyAt(list: seq<Page>, at: nat)
    requires PageList(list)
    reads list
  {
    forall i, o | 0 <= i < |list| && 0 <= o < PAGE_SIZE && o != at :: list[i][o] == old(list[i][o])
  }

  lemma ColumnAt(list: seq<Page>, at: nat)
    requires PageList(list) && at < PAGE_SIZE
    ensures |Column(list, at)| == |list| && Bytes(Column(list, at))
    ensures forall i | 0 <= i < |list| :: Column(list, at)[i] == list[i][at]
  {}

  /** Walk over the digits that hold v. */
  method FindStop(list: seq<Page>, at: nat, v: nat) returns (m: nat)
    requires PageList(list) && at < PAGE_SIZE && Normal(Column(list, at)) && Continued(v)
    ensures m < |list| && AllAre(Column(list, at), m, v) && Column(list, at)[m] != v
  {
    ghost var col := Column(list, at);
    ColumnAt(list, at);
    m := 0;
    WalkStops(col, 0, v);
    while list[m][at] == v
      invariant m < |list| && AllAre(col, m, v)
      decreases |list| - m
    {
      assert AllAre(col, m + 1, v);
      WalkStops(col, m + 1, v);
      m := m + 1;
    }
  }

  /** Write v at digit m and COUNT_CONTINUED into the digits in front of it, walking back to the
      head of the list. */
  method PutCarry(list: seq<Page>, at: nat, m: nat, v: Byte)
    requires PageList(list) && at < PAGE_SIZE && m < |list|
    modifies list
    ensures OnlyAt(list, at) && Column(list, at) == Carry(old(Column(list, at)), m, v)
  {
    list[m][at] := v;
    var page := m;
    while page > 0
      invariant page <= m && OnlyAt(list, at)
      invariant forall i | 0 <= i < |list| ::
        list[i][at] == if page <= i < m then COUNT_CONTINUED else if i == m then v else old(list[i][at])
    {
      page := page - 1;
      list[page][at] := COUNT_CONTINUED;
    }
  }

  /** swap_count_continued, incrementing: the carry out of the swap_map digit. */
  method CarryIn(list: seq<Page>, at: nat) returns (ok: bool)
    requires PageList(list) && at < PAGE_SIZE && Normal(Column(list, at))
    modifies list
    ensures OnlyAt(list, at)
    ensures ok <==> Increment(old(Column(list, at))).Some?
    ensures Column(list, at) == if ok then Increment(old(Column(list, at))).value else old(Column(list, at))
  {
    var page := FindStop(list, at, SWAP_CONT_MAX + COUNT_CONTINUED);
    ok := CarryAt(list, at, page);
  }

  /** The carry, once the first digit that is not full with a flag was found. */
  method CarryAt(list: seq<Page>, at: nat, m: nat) returns (ok: bool)
    requires PageList(list) && at < PAGE_SIZE && m < |list|
    requires AllAre(Column(list, at), m, SWAP_CONT_MAX + COUNT_CONTINUED)
    requires list[m][at] != SWAP_CONT_MAX + COUNT_CONTINUED
    modifies list
    ensures OnlyAt(list, at)
    ensures ok <==> Increment(old(Column(list, at))).Some?
    ensures Column(list, at) == if ok then Increment(old(Column(list, at))).value else old(Column(list, at))
  {
    ghost var col := Column(list, at);
    ColumnAt(list, at);
    IncrementByPosition(col, m);
    var stop: nat, v: Byte := m, 1;
    if list[m][at] == SWAP_CONT_MAX {
      stop := m + 1;
      if stop == |list| {
        return false;
      }
    } else {
      v := list[m][at] + 1;
    }
    assert Increment(col) == Some(Carry(col, stop, v));
    PutCarry(list, at, stop, v);
    assert Column(list, at) == Carry(col, stop, v);
    return true;
  }

  /** Write the digits in front of digit m, walking back to the head: a full digit each, with the flag
      `left` on the first one written. */
  method BorrowBack(list: seq<Page>, at: nat, m: nat, left: nat) returns (count: nat)
    requires PageList(list) && at < PAGE_SIZE && m < |list| && left <= COUNT_CONTINUED
    modifies list
    ensures OnlyAt(list, at) && count == if m > 0 then COUNT_CONTINUED else left
    ensures forall i | 0 <= i < |list| ::
      list[i][at] == (if i >= m then old(list[i][at]) else SWAP_CONT_MAX + if i + 1 == m then left else COUNT_CONTINUED)
  {
    count := left;
    var page := m;
    while page > 0
      invariant 0 <= page <= m && OnlyAt(list, at) && count == if page < m then COUNT_CONTINUED else left
      invariant forall i | 0 <= i < |list| ::
        list[i][at] == if i >= m || i < page then old(list[i][at])
                       else SWAP_CONT_MAX + if i + 1 == m then left else COUNT_CONTINUED
    {
      page := page - 1;
      list[page][at] := SWAP_CONT_MAX + count;
      count := COUNT_CONTINUED;
    }
  }

  /** Take one from digit m and write the digits in front of it. */
  method PutBorrow(list: seq<Page>, at: nat, m: nat) returns (count: nat)
    requires PageList(list) && at < PAGE_SIZE && m < |list| && Column(list, at)[m] >= 1
    modifies list
    ensures OnlyAt(list, at) && Column(list, at) == Borrow(old(Column(list, at)), m)
    ensures count == if m > 0 || old(list[m][at]) != 1 then COUNT_CONTINUED else 0
  {
    ghost var col := Column(list, at);
    ColumnAt(list, at);
    list[m][at] := list[m][at] - 1;
    count := BorrowBack(list, at, m, if list[m][at] == 0 then 0 else COUNT_CONTINUED);
    assert Column(list, at) == Borrow(col, m);
  }

  /** swap_count_continued, decrementing: the borrow into the swap_map digit. */
  method BorrowOut(list: seq<Page>, at: nat) returns (more: bool)
    requires PageList(list) && at < PAGE_SIZE && Normal(Column(list, at))
    modifies list
    ensures OnlyAt(list, at)
    ensures Decremented(Column(list, at), more) == Decrement(old(Column(list, at)))
  {
    ghost var col := Column(list, at);
    ColumnAt(list, at);
    var m := FindStop(list, at, COUNT_CONTINUED);
    DecrementByPosition(col, m);
    var count := PutBorrow(list, at, m);
    more := count == COUNT_CONTINUED;
  }

  /** swap_count_continued from the swap_map digit 62 without flag: start the number in the first
      continuation page, whatever that page held. */
  method StartColumn(list: seq<Page>, at: nat)
    requires PageList(list) && at < PAGE_SIZE && list != []
    modifies list
    ensures OnlyAt(list, at)
    ensures Column(list, at) == [1] + old(Column(list, at))[1..]
  {
    list[0][at] := 0;
    list[0][at] := list[0][at] + 1;
  }
}

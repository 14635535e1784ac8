/** The swap area of one device: reference counts with continuation pages, and the slot
    allocator. */
module SwapFile {
  import opened Common
  import opened SwapDigits
  import opened SwapPages

  datatype Err = OK | EINVAL | ENOENT | EEXIST | ENOMEM

  /** Which reference is taken or dropped: a mapping, the swap cache, or the one of shmem, which is never
      counted. */
  datatype Usage = One | Cache | Shmem

  /** The carry out of the swap_map digit has no page to go to. */
  ghost predicate NeedsPage(count: nat, col: seq<nat>) {
    Digit(count) == SWAP_MAP_MAX && if Continued(count) then Increment(col).None? else col == []
  }

  lemma LongerColumn(count: nat, col: seq<nat>, more: seq<nat>)
    ensures EntryNormal(count, col) ==>
      EntryNormal(count, col + more) && EntryValue(count, col + more) == EntryValue(count, col)
  {
    if EntryNormal(count, col) && Continued(count) {
      TailIgnored(col, more);
    }
  }

  /** The carry has no page to go to exactly when the low digit is full and there is no page, or all digits on
      all pages are full. */
  lemma NeedsPageIff(c: nat, col: seq<nat>)
    requires EntryNormal(c, col) && Bytes(col) && c < 256
    ensures NeedsPage(c, col) <==>
      if c == 0x3e then col == []
      else c == 0xbe && forall i | 0 <= i < |col| :: col[i] == if i == |col| - 1 then 0x7f else 0xff
  {
    if c == SWAP_MAP_MAX + COUNT_CONTINUED {
      NoRoomIff(col);
    }
  }

  // ----- counting entries -----

  predicate Good(b: Byte) {
    Count(b) != SWAP_MAP_BAD
  }

  predicate Used(b: Byte) {
    b != 0 && Good(b)
  }

  /** Both free, both bad, or both used. */
  predicate SameKind(a: Byte, b: Byte) {
    (Good(a) <==> Good(b)) && (a == 0 <==> b == 0)
  }

  function UsedCount(s: seq<Byte>): nat {
    if s == [] then 0 else UsedCount(s[1..]) + if Used(s[0]) then 1 else 0
  }

  function GoodCount(s: seq<Byte>): nat {
    if s == [] then 0 else GoodCount(s[1..]) + if Good(s[0]) then 1 else 0
  }

  lemma {:induction false} CountsAfterUpdate(s: seq<Byte>, o: nat, b: Byte)
    requires o < |s| && (Good(b) <==> Good(s[o]))
    ensures GoodCount(s[o := b]) == GoodCount(s)
    ensures UsedCount(s[o := b]) == UsedCount(s) + (if Used(b) then 1 else 0) - (if Used(s[o]) then 1 else 0)
    decreases |s|
  {
    var t := s[o := b];
    if o == 0 {
      assert t[1..] == s[1..];
    } else {
      assert t[1..] == s[1..][o - 1 := b];
      CountsAfterUpdate(s[1..], o - 1, b);
    }
  }

  ghost predicate NoneFree(s: seq<Byte>) {
    forall o | 0 <= o < |s| :: s[o] != 0
  }

  lemma NoneFreeStep(s: seq<Byte>)
    requires s != []
    ensures NoneFree(s) <==> s[0] != 0 && NoneFree(s[1..])
  {
    if s[0] != 0 && NoneFree(s[1..]) {
      forall o | 0 <= o < |s|
        ensures s[o] != 0
      {
        assert o > 0 ==> s[o] == s[1..][o - 1];
      }
    }
  }

  /** Every good entry is used exactly when no entry is free. */
  lemma {:induction false} UsedBelowGood(s: seq<Byte>)
    ensures UsedCount(s) <= GoodCount(s)
    ensures UsedCount(s) == GoodCount(s) <==> NoneFree(s)
    decreases |s|
  {
    if s == [] {
    } else {
      UsedBelowGood(s[1..]);
      NoneFreeStep(s);
    }
  }

  /** What the slot allocator relies on: every free offset lies between the two bounds, and
      inuse_pages counts the used entries that are not bad. */
  ghost predicate SlotFacts(s: seq<Byte>, pages: nat, lowest: nat, highest: nat, inuse: nat, next: nat) {
    && (s != [] ==> s[0] != 0)
    && (forall o | 0 <= o < |s| && s[o] == 0 :: lowest <= o <= highest)
    && (highest < |s| || highest == 0) && lowest <= |s| && next <= |s|
    && inuse == UsedCount(s) && pages == GoodCount(s)
    && (inuse == pages ==> highest == 0)
  }

  /** Taking a free offset keeps the facts, with the bounds the allocator computes. */
  lemma TakeKeepsFacts(s: seq<Byte>, pages: nat, lowest: nat, highest: nat, inuse: nat, next: nat, o: nat, usage: Byte)
    requires SlotFacts(s, pages, lowest, highest, inuse, next)
    requires o < |s| && s[o] == 0 && Used(usage)
    ensures highest > 0
    ensures var s' := s[o := usage];
      if inuse + 1 == pages then SlotFacts(s', pages, |s|, 0, inuse + 1, o + 1)
      else SlotFacts(s', pages, if o == lowest then lowest + 1 else lowest,
                     if o == highest then highest - 1 else highest, inuse + 1, o + 1)
  {
    CountsAfterUpdate(s, o, usage);
    UsedBelowGood(s[o := usage]);
  }

  /** Freeing a used offset keeps the facts, with the bounds swap_entry_free computes. */
  lemma FreeKeepsFacts(s: seq<Byte>, pages: nat, lowest: nat, highest: nat, inuse: nat, next: nat, o: nat)
    requires SlotFacts(s, pages, lowest, highest, inuse, next)
    requires 0 < o < |s| && Used(s[o])
    ensures inuse > 0
    ensures SlotFacts(s[o := 0], pages, if o < lowest then o else lowest,
                      if o > highest then o else highest, inuse - 1, next)
  {
    CountsAfterUpdate(s, o, 0);
    UsedBelowGood(s[o := 0]);
    assert s[o := 0][o] == 0;
  }

  /** Changing a byte without freeing, taking or spoiling its entry keeps the facts. */
  lemma ChangeKeepsFacts(s: seq<Byte>, pages: nat, lowest: nat, highest: nat, inuse: nat, next: nat, o: nat, b: Byte)
    requires SlotFacts(s, pages, lowest, highest, inuse, next)
    requires o < |s| && SameKind(s[o], b)
    ensures SlotFacts(s[o := b], pages, lowest, highest, inuse, next)
  {
    CountsAfterUpdate(s, o, b);
  }

  lemma {:induction false} NoneUsed(s: seq<Byte>)
    requires forall o | 0 <= o < |s| :: !Used(s[o])
    ensures UsedCount(s) == 0
    decreases |s|
  {
    if s == [] {
    } else {
      assert forall o | 0 <= o < |s| - 1 :: s[1..][o] == s[o + 1];
      NoneUsed(s[1..]);
    }
  }

  lemma SomeGood(s: seq<Byte>, o: nat)
    requires o < |s| && s[o] == 0
    ensures GoodCount(s) > UsedCount(s)
  {
    UsedBelowGood(s);
  }

  class SwapInfo {
    const max: nat
    const pages: nat          // how many entries are not bad
    const swapMap: array<Byte>
    var lowestBit: nat
    var highestBit: nat
    var inusePages: nat
    var clusterNext: nat
    var clusterNr: int
    /** The continuation pages of each page of the swap_map, in list order; page_private is set
        exactly when there are some. */
    var conts: seq<seq<Page>>

    ghost predicate PagesOK()
      reads this`conts
    {
      && swapMap.Length == max <= |conts| * PAGE_SIZE
      && (forall h | 0 <= h < |conts| :: PageList(conts[h]) && swapMap !in conts[h])
      && (forall h, k, p | 0 <= h < |conts| && 0 <= k < |conts| && p in conts[h] && p in conts[k] :: h == k)
    }

    /** The continuation bytes of one offset. */
    ghost function Col(o: nat): seq<nat>
      requires PagesOK() && o < max
      reads this`conts, conts[o / PAGE_SIZE]
    {
      Column(conts[o / PAGE_SIZE], o % PAGE_SIZE)
    }

    /** An ordinary entry is a number in normal form; the others are bad or shmem entries. */
    ghost predicate EntryOK(o: nat)
      requires PagesOK() && o < max
      reads this`conts, swapMap, conts[o / PAGE_SIZE]
    {
      var c := Count(swapMap[o]);
      if Digit(c) <= SWAP_MAP_MAX then EntryNormal(c, Col(o)) else c == SWAP_MAP_BAD || c == SWAP_MAP_SHMEM
    }

    /** The mappings of an ordinary entry; bad and shmem entries are not counted. */
    ghost function Value(o: nat): nat
      requires PagesOK() && o < max
      reads this`conts, swapMap, conts[o / PAGE_SIZE]
    {
      var c := Count(swapMap[o]);
      if Digit(c) <= SWAP_MAP_MAX then EntryValue(c, Col(o)) else 0
    }

    ghost function AllPages(): set<Page>
      reads this`conts
    {
      set h, i | 0 <= h < |conts| && 0 <= i < |conts[h]| :: conts[h][i]
    }

    ghost predicate CountsOK()
      reads this`conts, swapMap, AllPages()
    {
      && PagesOK()
      && forall o | 0 <= o < max :: EntryOK(o)
    }

    /** Every entry but that of offset o is as it was, swap_map byte and continuation bytes. */
    twostate predicate OthersSame(o: nat)
      requires old(PagesOK()) && PagesOK()
      reads this`conts, swapMap, AllPages()
    {
      && conts == old(conts)
      && forall x | 0 <= x < max && x != o :: swapMap[x] == old(swapMap[x]) && Col(x) == old(Col(x))
    }

    /** What OthersSame says, entry by entry: the byte and the count of every other offset are as they were. */
    twostate lemma OthersSameMeans(o: nat, x: nat)
      requires old(PagesOK()) && PagesOK() && OthersSame(o) && x < max && x != o
      ensures swapMap[x] == old(swapMap[x]) && Col(x) == old(Col(x)) && Value(x) == old(Value(x))
    {}

    ghost predicate SlotsOK()
      reads this`lowestBit, this`highestBit, this`inusePages, this`clusterNext, swapMap
    {
      swapMap.Length == max && SlotFacts(swapMap[..], pages, lowestBit, highestBit, inusePages, clusterNext)
    }

    ghost function SlotState(): Slots
      reads this`lowestBit, this`highestBit, this`clusterNext, swapMap
    {
      Slots(swapMap[..], lowestBit, highestBit, clusterNext)
    }

    /** A device as swapon leaves it: offset 0 and the listed offsets bad, the others free. */
    constructor (max: nat, bad: set<nat>)
      requires max > 1 && exists o | 0 < o < max :: o !in bad
      ensures CountsOK() && SlotsOK() && this.max == max
      ensures lowestBit == 1 && highestBit == max - 1 && inusePages == 0 && clusterNext == 1 && clusterNr == 0
      ensures fresh(swapMap) && pages == GoodCount(swapMap[..]) && forall h | 0 <= h < |conts| :: conts[h] == []
      ensures forall o | 0 <= o < max :: swapMap[o] == if o == 0 || o in bad then SWAP_MAP_BAD else 0
    {
      this.max := max;
      var bytes: seq<Byte> := seq(max, i requires 0 <= i < max => if i == 0 || i in bad then SWAP_MAP_BAD else 0);
      swapMap := new Byte[max](i requires 0 <= i < max => bytes[i]);
      conts := seq(max / PAGE_SIZE + 1, i => []);
      lowestBit, highestBit, inusePages := 1, max - 1, 0;
      clusterNext, clusterNr := 1, 0;
      pages := GoodCount(bytes);
      new;
      assert swapMap[..] == bytes;
      NoneUsed(bytes);
      var o :| 0 < o < max && o !in bad;
      SomeGood(bytes, o);
    }

    /** swap_count_continued */
    method CountContinued(offset: nat, count: nat) returns (ok: bool)
      requires PagesOK() && offset < max
      requires count in {SWAP_MAP_MAX, SWAP_MAP_MAX + COUNT_CONTINUED, COUNT_CONTINUED}
      requires Continued(count) ==> Normal(Col(offset))
      modifies conts[offset / PAGE_SIZE]
      ensures PagesOK() && OthersSame(offset)
      ensures count == SWAP_MAP_MAX ==>
        (ok <==> old(Col(offset)) != []) && Col(offset) == if ok then [1] + old(Col(offset))[1..] else []
      ensures count == SWAP_MAP_MAX + COUNT_CONTINUED ==>
        && (ok <==> Increment(old(Col(offset))).Some?)
        && Col(offset) == if ok then Increment(old(Col(offset))).value else old(Col(offset))
      ensures count == COUNT_CONTINUED ==> Decremented(Col(offset), ok) == Decrement(old(Col(offset)))
    {
      var list, at := conts[offset / PAGE_SIZE], offset % PAGE_SIZE;
      if list == [] {
        ok := false;
      } else if count == SWAP_MAP_MAX {
        StartColumn(list, at);
        ok := true;
      } else if count == SWAP_MAP_MAX + COUNT_CONTINUED {
        ok := CarryIn(list, at);
      } else {
        ok := BorrowOut(list, at);
      }
      forall x | 0 <= x < max && x != offset
        ensures Col(x) == old(Col(x))
      {
        var k := x / PAGE_SIZE;
        if k != offset / PAGE_SIZE {
          forall i | 0 <= i < |conts[k]|
            ensures conts[k][i][x % PAGE_SIZE] == old(conts[k][i][x % PAGE_SIZE])
          {
            assert conts[k][i] in conts[k] && conts[k][i] !in list;
          }
        }
      }
    }

    /** The branch of __swap_duplicate that counts a mapping: the new swap_map digit, or why not. */
    method CountMapping(offset: nat, count0: nat) returns (count: nat, err: Err)
      requires PagesOK() && offset < max && EntryOK(offset) && count0 == Count(swapMap[offset])
      modifies conts[offset / PAGE_SIZE]
      ensures PagesOK() && OthersSame(offset) && swapMap[offset] == old(swapMap[offset])
      ensures err == if Digit(count0) > SWAP_MAP_MAX then EINVAL
                     else if NeedsPage(count0, old(Col(offset))) then ENOMEM else OK
      ensures err != OK ==> count == count0 && Col(offset) == old(Col(offset))
      ensures err == OK ==>
        EntryNormal(count, Col(offset)) && EntryValue(count, Col(offset)) == EntryValue(count0, old(Col(offset))) + 1
    {
      ColumnAt(conts[offset / PAGE_SIZE], offset % PAGE_SIZE);
      count, err := count0, OK;
      if Digit(count) > SWAP_MAP_MAX {
        return count, EINVAL;
      }
      CountUp(count, Col(offset));
      if Digit(count) < SWAP_MAP_MAX {
        count := count + 1;
      } else {
        var ok := CountContinued(offset, count);
        if ok {
          count := COUNT_CONTINUED;
        } else {
          err := ENOMEM;
        }
      }
    }

    /** Write count | has_cache back to the swap_map. */
    method Store(offset: nat, count: nat, cache: bool)
      requires PagesOK() && offset < max && Digit(count) < SWAP_HAS_CACHE && count < 256
      requires forall x | 0 <= x < max && x != offset :: EntryOK(x)
      requires if Digit(count) <= SWAP_MAP_MAX then EntryNormal(count, Col(offset))
               else count == SWAP_MAP_BAD || count == SWAP_MAP_SHMEM
      modifies swapMap
      ensures CountsOK() && OthersSame(offset) && Col(offset) == old(Col(offset))
      ensures swapMap[offset] == WithCache(count, cache)
      ensures Count(swapMap[offset]) == count && (HasCache(swapMap[offset]) <==> cache)
      ensures old(SlotsOK()) && SameKind(old(swapMap[offset]), swapMap[offset]) ==> SlotsOK()
    {
      CacheBit(count, cache);
      ghost var before := swapMap[..];
      swapMap[offset] := WithCache(count, cache);
      assert swapMap[..] == before[offset := swapMap[offset]];
      if old(SlotsOK()) && SameKind(before[offset], swapMap[offset]) {
        ChangeKeepsFacts(before, pages, lowestBit, highestBit, inusePages, clusterNext, offset, swapMap[offset]);
      }
      forall x | 0 <= x < max && x != offset
        ensures EntryOK(x)
      {
        assert old(EntryOK(x));
      }
    }

    /** The entry is one of this device: types 8 and 9 are COMEX entries, which are not counted, and types
        from nr_swapfiles on are of no device. */
    ghost predicate Ours(kind: nat, nrSwapfiles: nat, offset: nat) {
      kind != 8 && kind != 9 && kind < nrSwapfiles && offset < max
    }

    /** The digit in the swap_map is full, and there is no continuation page, or all digits on all pages are
        full too. */
    ghost predicate CarryStuck(offset: nat)
      requires PagesOK() && offset < max
      reads this`conts, swapMap, conts[offset / PAGE_SIZE]
    {
      var c, col := Count(swapMap[offset]), Col(offset);
      if c == 0x3e then col == []
      else c == 0xbe && forall i | 0 <= i < |col| :: col[i] == if i == |col| - 1 then 0x7f else 0xff
    }

    /** __swap_duplicate, on an entry of any type whose device, if it has one, is this: types 8 and 9 are
        counted nowhere, and of an entry of this device the answer and the effect are those of Duplicate. */
    method DuplicateEntry(kind: nat, nrSwapfiles: nat, offset: nat, usage: Usage) returns (err: Err)
      requires CountsOK()
      requires usage == Shmem && Ours(kind, nrSwapfiles, offset) ==> FreshForShmem(swapMap[offset])
      modifies if Ours(kind, nrSwapfiles, offset) then {swapMap} + set p | p in conts[offset / PAGE_SIZE] else {}
      ensures CountsOK()
      ensures kind == 8 || kind == 9 ==> err == OK && swapMap[..] == old(swapMap[..])
      ensures kind != 8 && kind != 9 && (kind >= nrSwapfiles || offset >= max) ==>
        err == EINVAL && swapMap[..] == old(swapMap[..])
      ensures kind != 8 && kind != 9 && kind < nrSwapfiles && offset < max ==>
        && OthersSame(offset)
        && (err == ENOENT <==> old(swapMap[offset]) == 0)
        && (usage == Cache ==>
              && (err == OK <==> old(swapMap[offset]) != 0 && !old(HasCache(swapMap[offset])))
              && (err == EEXIST <==> old(HasCache(swapMap[offset]))))
        && (usage != Cache ==>
              && (err == EINVAL <==> old(swapMap[offset]) != 0 && Digit(old(Count(swapMap[offset]))) > 0x3e)
              && (err == ENOMEM <==> usage == One && old(CarryStuck(offset)))
              && err != EEXIST)
        && (err != OK ==> swapMap[offset] == old(swapMap[offset]) && Col(offset) == old(Col(offset)))
        && (err == OK && usage == One ==>
              && Value(offset) == old(Value(offset)) + 1
              && (HasCache(swapMap[offset]) <==> old(HasCache(swapMap[offset]))))
        && (err == OK && usage == Cache ==>
              swapMap[offset] == old(swapMap[offset]) + SWAP_HAS_CACHE && Col(offset) == old(Col(offset)))
        && (err == OK && usage == Shmem ==>
              swapMap[offset] == old(swapMap[offset]) + SWAP_MAP_SHMEM && Col(offset) == old(Col(offset)))
      ensures old(SlotsOK()) ==> SlotsOK()
    {
      if kind == 8 || kind == 9 {
        return OK;
      }
      if kind >= nrSwapfiles || offset >= max {
        return EINVAL;
      }
      err := Duplicate(offset, usage);
    }

    /** __swap_duplicate, for an offset of this device.  The swap-cache reference is granted exactly to an
        entry in use that has none; a mapping is counted exactly for an entry in use that is neither bad nor
        shmem and whose carry has a page to go to. */
    method Duplicate(offset: nat, usage: Usage) returns (err: Err)
      requires CountsOK() && offset < max
      requires usage == Shmem ==> FreshForShmem(swapMap[offset])
      modifies swapMap, set p | p in conts[offset / PAGE_SIZE]
      ensures CountsOK() && OthersSame(offset)
      ensures err == ENOENT <==> old(swapMap[offset]) == 0
      ensures usage == Cache ==>
        && (err == OK <==> old(swapMap[offset]) != 0 && !old(HasCache(swapMap[offset])))
        && (err == EEXIST <==> old(HasCache(swapMap[offset])))
      ensures usage != Cache ==>
        && (err == EINVAL <==> old(swapMap[offset]) != 0 && Digit(old(Count(swapMap[offset]))) > 0x3e)
        && (err == ENOMEM <==> usage == One && old(CarryStuck(offset)))
        && err != EEXIST
      ensures err != OK ==> swapMap[offset] == old(swapMap[offset]) && Col(offset) == old(Col(offset))
      ensures err == OK && usage == One ==>
        Value(offset) == old(Value(offset)) + 1 && (HasCache(swapMap[offset]) <==> old(HasCache(swapMap[offset])))
      ensures err == OK && usage == Cache ==>
        swapMap[offset] == old(swapMap[offset]) + SWAP_HAS_CACHE && Col(offset) == old(Col(offset))
      ensures err == OK && usage == Shmem ==>
        swapMap[offset] == old(swapMap[offset]) + SWAP_MAP_SHMEM && Col(offset) == old(Col(offset))
      ensures old(SlotsOK()) ==> SlotsOK()
    {
      assert EntryOK(offset);
      var count: nat, hasCache: bool;
      count, hasCache, err := NewCount(offset, usage);
      forall x | 0 <= x < max && x != offset
        ensures EntryOK(x)
      {
        assert old(EntryOK(x));
      }
      Store(offset, count, hasCache);
    }

    /** The answer of __swap_duplicate, and the two parts of the byte it writes. */
    method NewCount(offset: nat, usage: Usage) returns (count: nat, hasCache: bool, err: Err)
      requires PagesOK() && offset < max && EntryOK(offset)
      requires usage == Shmem ==> FreshForShmem(swapMap[offset])
      modifies conts[offset / PAGE_SIZE]
      ensures PagesOK() && OthersSame(offset) && swapMap[offset] == old(swapMap[offset])
      ensures err == ENOENT <==> swapMap[offset] == 0
      ensures usage == Cache ==>
        && (err == OK <==> swapMap[offset] != 0 && !HasCache(swapMap[offset]))
        && (err == EEXIST <==> HasCache(swapMap[offset]))
      ensures usage != Cache ==>
        && (err == EINVAL <==> swapMap[offset] != 0 && Digit(Count(swapMap[offset])) > 0x3e)
        && (err == ENOMEM <==> usage == One && old(CarryStuck(offset)))
        && err != EEXIST
      ensures hasCache <==> HasCache(swapMap[offset]) || (usage == Cache && err == OK)
      ensures usage == One && err == OK ==>
        EntryNormal(count, Col(offset)) && EntryValue(count, Col(offset)) == old(Value(offset)) + 1
      ensures usage != One || err != OK ==> Col(offset) == old(Col(offset))
      ensures usage == Shmem && err == OK ==> count == SWAP_MAP_SHMEM && Count(swapMap[offset]) == 0
      ensures usage == Cache || err != OK ==> count == Count(swapMap[offset])
    {
      count, hasCache, err := Count(swapMap[offset]), HasCache(swapMap[offset]), OK;
      StuckIff(offset);
      if usage == Cache {
        if !hasCache && count != 0 {
          hasCache := true;
        } else if hasCache {
          err := EEXIST;
        } else {
          err := ENOENT;
        }
      } else if count == 0 && !hasCache {
        err := ENOENT;
      } else if usage == One {
        count, err := CountMapping(offset, count);
      } else if Digit(count) < SWAP_MAP_MAX {
        count := count + SWAP_MAP_SHMEM;
      } else {
        err := EINVAL;
      }
    }

    lemma StuckIff(offset: nat)
      requires PagesOK() && offset < max && EntryOK(offset)
      ensures CarryStuck(offset) <==> NeedsPage(Count(swapMap[offset]), Col(offset))
    {
      ColumnAt(conts[offset / PAGE_SIZE], offset % PAGE_SIZE);
      if Digit(Count(swapMap[offset])) <= SWAP_MAP_MAX {
        NeedsPageIff(Count(swapMap[offset]), Col(offset));
      }
    }

    /** The scan of add_swap_count_continuation: true when it reaches the end of the list, so that
        the new page is attached. */
    method ScanPages(offset: nat, count0: nat) returns (attach: bool)
      requires PagesOK() && offset < max && EntryNormal(count0, Col(offset)) && Digit(count0) == SWAP_MAP_MAX
      ensures attach <==> NeedsPage(count0, Col(offset))
    {
      var list, at := conts[offset / PAGE_SIZE], offset % PAGE_SIZE;
      ghost var col := Col(offset);
      ColumnAt(list, at);
      var count := count0;
      var i := 0;
      while i < |list|
        invariant i <= |list|
        invariant i == 0 ==> count == count0
        invariant i > 0 ==> Continued(count0) && count == col[i - 1] && Digit(count) == SWAP_CONT_MAX
        invariant i > 0 ==> AllAre(col, i - 1, SWAP_CONT_MAX + COUNT_CONTINUED)
      {
        if !Continued(count) {
          if i > 0 {
            IncrementByPosition(col, i - 1);
          }
          return false;
        }
        count := list[i][at];
        if Digit(count) != SWAP_CONT_MAX {
          IncrementByPosition(col, i);
          return false;
        }
        i := i + 1;
      }
      if i > 0 {
        if Continued(count) {
          WalkStops(col, i, SWAP_CONT_MAX + COUNT_CONTINUED);
        }
        IncrementByPosition(col, i - 1);
      }
      return true;
    }

    /** The list of map page h got one page at its end, the others are as they were. */
    ghost predicate OnePageMore(before: seq<seq<array<Byte>>>, h: nat)
      reads this
    {
      && h < |before| == |conts| && |conts[h]| == |before[h]| + 1
      && forall k | 0 <= k < |conts| :: conts[k] == if k == h then before[k] + conts[k][|before[k]|..] else before[k]
    }

    /** add_swap_count_continuation; `gotPage` says whether alloc_page found a page. */
    method AddContinuation(offset: nat, gotPage: bool) returns (err: Err)
      requires CountsOK()
      modifies this`conts
      ensures CountsOK()
      ensures forall x | 0 <= x < max :: Value(x) == old(Value(x))
      ensures forall p | p in AllPages() :: p in old(AllPages()) || fresh(p)
      ensures err == OK || err == ENOMEM
      ensures err == ENOMEM <==> !gotPage && offset < max && Digit(Count(swapMap[offset])) == SWAP_MAP_MAX
      ensures if gotPage && offset < max && old(NeedsPage(Count(swapMap[offset]), Col(offset)))
              then !NeedsPage(Count(swapMap[offset]), Col(offset)) && OnePageMore(old(conts), offset / PAGE_SIZE)
              else conts == old(conts)
    {
      if offset >= max || swapMap[offset] == 0 {
        return OK;
      }
      assert EntryOK(offset);
      var count := Count(swapMap[offset]);
      if Digit(count) != SWAP_MAP_MAX {
        return OK;
      }
      if !gotPage {
        return ENOMEM;
      }
      var attach := ScanPages(offset, count);
      if attach {
        ghost var col := Col(offset);
        ColumnAt(conts[offset / PAGE_SIZE], offset % PAGE_SIZE);
        Attach(offset / PAGE_SIZE);
        ghost var b := Col(offset)[|col|];
        if Continued(count) {
          PageMakesRoom(col, b);
        }
      }
      return OK;
    }

    /** list_add_tail of a fresh page, whose bytes are whatever they are. */
    method Attach(h: nat)
      requires CountsOK() && h < |conts|
      modifies this`conts
      ensures CountsOK()
      ensures forall p | p in AllPages() :: p in old(AllPages()) || fresh(p)
      ensures OnePageMore(old(conts), h)
      ensures forall x | 0 <= x < max :: Value(x) == old(Value(x))
      ensures forall x | 0 <= x < max && x / PAGE_SIZE == h :: Col(x) == old(Col(x)) + [Col(x)[|old(Col(x))|]]
    {
      var page := new Byte[PAGE_SIZE];
      conts := conts[h := conts[h] + [page]];
      forall x | 0 <= x < max
        ensures Col(x) == if x / PAGE_SIZE == h then old(Col(x)) + [page[x % PAGE_SIZE]] else old(Col(x))
      {}
      forall x | 0 <= x < max
        ensures EntryOK(x) && Value(x) == old(Value(x))
      {
        assert old(EntryOK(x));
        LongerColumn(Count(swapMap[x]), old(Col(x)), [page[x % PAGE_SIZE]]);
      }
    }

    // ----- the slot allocator -----

    /** The end of scan_swap_map: take a free offset. */
    method TakeSlot(offset: nat, usage: Byte)
      requires CountsOK() && SlotsOK() && offset < max && swapMap[offset] == 0
      requires usage == 1 || usage == SWAP_HAS_CACHE
      modifies this`lowestBit, this`highestBit, this`inusePages, this`clusterNext, swapMap
      ensures CountsOK() && SlotsOK() && OthersSame(offset)
      ensures swapMap[offset] == usage && inusePages == old(inusePages) + 1 && clusterNext == offset + 1
      ensures lowestBit == if inusePages == pages then max else if offset == old(lowestBit) then offset + 1
                           else old(lowestBit)
      ensures highestBit == if inusePages == pages then 0 else if offset == old(highestBit) then offset - 1
                            else old(highestBit)
    {
      TakeKeepsFacts(swapMap[..], pages, lowestBit, highestBit, inusePages, clusterNext, offset, usage);
      TakeBounds(offset);
      StoreFresh(offset, usage);
    }

    /** The bounds and the counter, when a free offset is taken. */
    method TakeBounds(offset: nat)
      requires highestBit > 0
      modifies this`lowestBit, this`highestBit, this`inusePages, this`clusterNext
      ensures inusePages == old(inusePages) + 1 && clusterNext == offset + 1
      ensures lowestBit == if inusePages == pages then max else if offset == old(lowestBit) then offset + 1
                           else old(lowestBit)
      ensures highestBit == if inusePages == pages then 0 else if offset == old(highestBit) then offset - 1
                            else old(highestBit)
    {
      if offset == lowestBit {
        lowestBit := lowestBit + 1;
      }
      if offset == highestBit {
        highestBit := highestBit - 1;
      }
      inusePages := inusePages + 1;
      if inusePages == pages {
        lowestBit := max;
        highestBit := 0;
      }
      clusterNext := offset + 1;
    }

    method StoreFresh(offset: nat, usage: Byte)
      requires CountsOK() && offset < max && swapMap[offset] == 0 && (usage == 1 || usage == SWAP_HAS_CACHE)
      modifies swapMap
      ensures CountsOK() && OthersSame(offset) && swapMap[..] == old(swapMap[..])[offset := usage]
    {
      swapMap[offset] := usage;
      forall x | 0 <= x < max
        ensures EntryOK(x)
      {
        assert old(EntryOK(x));
      }
    }

    /** The first run of 256 free entries from `from` on whose last entry is at most `last`. */
    method FindCluster(from: nat, last: int) returns (found: bool, offset: nat)
      requires swapMap.Length == max && last < max
      ensures found ==> from <= offset && offset + CLUSTER - 1 <= last && FreeRun(swapMap[..], offset)
      ensures found ==> forall i | from <= i < offset :: !FreeRun(swapMap[..], i)
      ensures !found ==> forall i | from <= i && i + CLUSTER - 1 <= last :: !FreeRun(swapMap[..], i)
    {
      offset := from;
      var lastInCluster := offset + CLUSTER - 1;
      while lastInCluster <= last
        invariant from <= offset <= lastInCluster && from + CLUSTER - 1 <= lastInCluster
        invariant lastInCluster - (CLUSTER - 1) <= offset
        invariant forall i | lastInCluster - (CLUSTER - 1) <= i < offset && i < max :: swapMap[i] == 0
        invariant forall i | from <= i < lastInCluster - (CLUSTER - 1) :: !FreeRun(swapMap[..], i)
        decreases last + 1 - offset
      {
        if swapMap[offset] != 0 {
          UsedBlocksRuns(swapMap[..], offset);
          lastInCluster := offset + CLUSTER;
        } else if offset == lastInCluster {
          offset := offset - (CLUSTER - 1);
          return true, offset;
        }
        offset := offset + 1;
      }
      found := false;
    }

    /** The search for a new cluster: where the scan starts, and the first 256 free entries in a row.  A
        rotating disk is searched from the lower bound on, a solid-state one from where the last entry was
        taken, and then from the lower bound up to there. */
    method StartScan(solid: bool) returns (scanBase: nat, offset: nat, found: bool)
      requires SlotsOK() && max > 0
      modifies this`clusterNext, this`clusterNr
      ensures SlotsOK() && scanBase <= max && offset <= max
      ensures clusterNr == if old(clusterNr) == 0 then CLUSTER - 1 else old(clusterNr) - 1
      ensures clusterNext == if found then offset else old(clusterNext)
      ensures !found ==>
        offset == scanBase
        == if !solid && old(clusterNr) == 0 && inusePages + CLUSTER <= pages then lowestBit else old(clusterNext)
      ensures found ==> old(clusterNr) == 0 && inusePages + CLUSTER <= pages
      ensures old(clusterNr) == 0 && inusePages + CLUSTER <= pages ==>
        FirstRun(swapMap[..], lowestBit, highestBit, if solid then old(clusterNext) else lowestBit, found, offset)
    {
      scanBase, offset, found := clusterNext, clusterNext, false;
      clusterNr := clusterNr - 1;
      if clusterNr != -1 {
        return;
      }
      if pages < inusePages + CLUSTER {
        clusterNr := CLUSTER - 1;
        return;
      }
      if !solid {
        scanBase, offset := lowestBit, lowestBit;
      }
      found, offset := FindCluster(offset, highestBit);
      if !found {
        found, offset := FindCluster(lowestBit, scanBase - 1);
      }
      if found {
        clusterNext := offset;
      } else {
        offset := scanBase;
      }
      clusterNr := CLUSTER - 1;
    }

    /** The first free entry after `from`, up to `last`. */
    method NextFree(from: nat, last: int) returns (found: bool, offset: nat)
      requires swapMap.Length == max && last < max
      ensures found ==> from < offset <= last && swapMap[offset] == 0
      ensures forall i | from < i <= last && (found ==> i < offset) :: swapMap[i] != 0
    {
      offset := from + 1;
      while offset <= last
        invariant from < offset
        invariant forall i | from < i < offset && i <= last :: swapMap[i] != 0
        decreases last - offset
      {
        if swapMap[offset] == 0 {
          return true, offset;
        }
        offset := offset + 1;
      }
      found := false;
    }

    /** The checks and the two scans: a free offset, or 0. */
    method PickSlot(base: nat, start: nat, found: bool, writeOK: bool) returns (r: nat, cluster: bool)
      requires SlotsOK() && max > 0 && base <= max
      requires if found then FreeRun(swapMap[..], start) else start == base
      ensures r != 0 ==> r < max && swapMap[r] == 0
      ensures r == 0 <==> !writeOK || highestBit == 0 || Overlooked(swapMap[..], lowestBit, highestBit, start)
      ensures writeOK ==> Picks(swapMap[..], lowestBit, highestBit, start, r)
      ensures cluster ==> r == start && found
      ensures found && writeOK ==> cluster
    {
      var scanBase: int := base;
      var offset: nat := start;
      if found {
        RunStartsFree(swapMap[..], start);
      }
      if !writeOK || highestBit == 0 {
        return 0, false;
      }
      BoundsMeet(swapMap[..], pages, lowestBit, highestBit, inusePages, clusterNext);
      if offset > highestBit {
        scanBase, offset := lowestBit, lowestBit;
      }
      assert swapMap[..][0] != 0;
      if swapMap[offset] != 0 {
        var free: bool;
        free, offset := NextFree(offset, highestBit);
        if !free {
          free, offset := NextFree(lowestBit, scanBase - 1);
          if !free {
            ScanFailed(swapMap[..], pages, lowestBit, highestBit, inusePages, clusterNext, start);
          }
        }
        return if free then offset else 0, false;
      }
      return offset, found;
    }

    /** The search of scan_swap_map: a free offset, or 0. */
    method ChooseSlot(solid: bool, writeOK: bool) returns (r: nat, cluster: bool)
      requires SlotsOK() && max > 0
      modifies this`clusterNext, this`clusterNr
      ensures SlotsOK()
      ensures clusterNr == if old(clusterNr) == 0 then CLUSTER - 1 else old(clusterNr) - 1
      ensures r != 0 ==> r < max && swapMap[r] == 0
      ensures r == 0 ==> !cluster
      ensures if writeOK
              then ScanAnswer(swapMap[..], lowestBit, highestBit, old(clusterNext), solid,
                              old(clusterNr) == 0 && inusePages + 256 <= pages, r, cluster)
              else r == 0
    {
      RunsInBounds(swapMap[..], pages, lowestBit, highestBit, inusePages, clusterNext);
      var scanBase, offset, found := StartScan(solid);
      r, cluster := PickSlot(scanBase, offset, found, writeOK);
      if found {
        RunStartsFree(swapMap[..], offset);
      }
    }

    /** The end of scan_swap_map, if the search found an offset. */
    method TakeFound(r: nat, usage: Byte)
      requires CountsOK() && SlotsOK() && (usage == 1 || usage == SWAP_HAS_CACHE)
      requires r != 0 ==> r < max && swapMap[r] == 0
      modifies this`lowestBit, this`highestBit, this`inusePages, this`clusterNext, swapMap
      ensures CountsOK() && SlotsOK()
      ensures r == 0 ==> swapMap[..] == old(swapMap[..])
      ensures r != 0 ==> swapMap[r] == usage && OthersSame(r) && clusterNext == r + 1
      ensures inusePages == old(inusePages) + if r != 0 then 1 else 0
      ensures lowestBit == if r == 0 then old(lowestBit) else if inusePages == pages then max
                           else if r == old(lowestBit) then r + 1 else old(lowestBit)
      ensures highestBit == if r == 0 then old(highestBit) else if inusePages == pages then 0
                            else if r == old(highestBit) then r - 1 else old(highestBit)
    {
      if r != 0 {
        TakeSlot(r, usage);
      }
    }

    /** scan_swap_map, without reclaim and discard.  Returns 0 when it finds no offset; `cluster`
        says that the offset starts a newly found cluster.  Otherwise the search starts at cluster_next, or on
        a rotating disk that was searched for a cluster at the lower bound, goes up to the upper bound, and
        then on from behind the lower bound.  A writable device with a free entry gives one, unless the only
        free entry is lowest_bit and the scan starts above it. */
    method ScanSwapMap(usage: Byte, solid: bool, writeOK: bool) returns (r: nat, cluster: bool)
      requires CountsOK() && SlotsOK() && max > 0 && (usage == 1 || usage == SWAP_HAS_CACHE)
      modifies this`lowestBit, this`highestBit, this`inusePages, this`clusterNext, this`clusterNr, swapMap
      ensures CountsOK() && SlotsOK()
      ensures r == 0 ==> swapMap[..] == old(swapMap[..]) && !cluster
      ensures r != 0 ==> r < max && old(swapMap[r]) == 0 && swapMap[r] == usage && OthersSame(r)
      ensures !writeOK ==> r == 0
      ensures writeOK ==>
        ScanAnswer(old(swapMap[..]), old(lowestBit), old(highestBit), old(clusterNext), solid,
                   old(clusterNr) == 0 && old(inusePages) + 256 <= pages, r, cluster)
      ensures (writeOK && old(clusterNr) != 0 && old(clusterNext) <= old(highestBit) < max
               && old(highestBit) > 0 && old(swapMap[..])[old(clusterNext)] == 0) ==> r == old(clusterNext)
      ensures inusePages == old(inusePages) + if r != 0 then 1 else 0
      ensures lowestBit == if r == 0 then old(lowestBit) else if inusePages == pages then max
                           else if r == old(lowestBit) then r + 1 else old(lowestBit)
      ensures highestBit == if r == 0 then old(highestBit) else if inusePages == pages then 0
                            else if r == old(highestBit) then r - 1 else old(highestBit)
      ensures clusterNr == if old(clusterNr) == 0 then CLUSTER - 1 else old(clusterNr) - 1
      ensures r != 0 ==> clusterNext == r + 1
    {
      r, cluster := ChooseSlot(solid, writeOK);
      TakeFound(r, usage);
    }

    // ----- swap_entry_free -----

    /** The branch of swap_entry_free that drops a mapping: the new swap_map digit. */
    method DropMapping(offset: nat, count0: nat) returns (count: nat)
      requires PagesOK() && offset < max && EntryOK(offset) && count0 == Count(swapMap[offset]) && count0 != 0
      modifies conts[offset / PAGE_SIZE]
      ensures PagesOK() && OthersSame(offset) && swapMap[offset] == old(swapMap[offset])
      ensures Digit(count0) > SWAP_MAP_MAX ==> count == if count0 == SWAP_MAP_SHMEM then 0 else count0
      ensures Digit(count0) <= SWAP_MAP_MAX ==>
        EntryNormal(count, Col(offset)) && EntryValue(count, Col(offset)) == EntryValue(count0, old(Col(offset))) - 1
      ensures Digit(count) < SWAP_HAS_CACHE
    {
      ColumnAt(conts[offset / PAGE_SIZE], offset % PAGE_SIZE);
      count := count0;
      if count == SWAP_MAP_SHMEM {
        count := 0;
      } else if Digit(count) <= SWAP_MAP_MAX {
        CountDown(count, Col(offset));
        if count == COUNT_CONTINUED {
          var more := CountContinued(offset, count);
          count := if more then SWAP_MAP_MAX + COUNT_CONTINUED else SWAP_MAP_MAX;
        } else {
          count := count - 1;
        }
      }
    }

    /** The part of swap_entry_free that changes the count. */
    method DropReference(offset: nat, usage: Usage) returns (left: Byte)
      requires CountsOK() && 0 < offset < max
      requires usage == Cache ==> HasCache(swapMap[offset])
      requires usage != Cache ==> Count(swapMap[offset]) != 0
      modifies swapMap, conts[offset / PAGE_SIZE]
      ensures CountsOK() && OthersSame(offset) && left == swapMap[offset]
      ensures swapMap[..] == old(swapMap[..])[offset := left]
      ensures old(swapMap[offset]) != 0 && (Good(left) <==> old(Good(swapMap[offset])))
      ensures usage == Cache ==> left == old(swapMap[offset]) - SWAP_HAS_CACHE && Col(offset) == old(Col(offset))
      ensures usage != Cache ==> (HasCache(left) <==> old(HasCache(swapMap[offset])))
      ensures usage != Cache && Digit(old(Count(swapMap[offset]))) <= SWAP_MAP_MAX ==>
        Digit(Count(left)) <= SWAP_MAP_MAX && Value(offset) == old(Value(offset)) - 1
      ensures usage != Cache && old(Count(swapMap[offset])) == SWAP_MAP_SHMEM ==> Count(left) == 0
      ensures usage != Cache && old(Count(swapMap[offset])) == SWAP_MAP_BAD ==> left == old(swapMap[offset])
    {
      assert EntryOK(offset);
      var count := Count(swapMap[offset]);
      var hasCache := HasCache(swapMap[offset]);
      if usage == Cache {
        hasCache := false;
      } else {
        count := DropMapping(offset, count);
      }
      forall x | 0 <= x < max && x != offset
        ensures EntryOK(x)
      {
        assert old(EntryOK(x));
      }
      Store(offset, count, hasCache);
      left := swapMap[offset];
    }

    /** swap_entry_free: drop a mapping that is counted, or the cache reference; free the slot when
        nothing is left. */
    method EntryFree(offset: nat, usage: Usage) returns (left: Byte)
      requires CountsOK() && SlotsOK() && 0 < offset < max
      requires usage == Cache ==> HasCache(swapMap[offset])
      requires usage != Cache ==> Count(swapMap[offset]) != 0
      modifies this`lowestBit, this`highestBit, this`inusePages, swapMap, conts[offset / PAGE_SIZE]
      ensures CountsOK() && SlotsOK() && OthersSame(offset) && left == swapMap[offset]
      ensures usage == Cache ==> left == old(swapMap[offset]) - SWAP_HAS_CACHE && Col(offset) == old(Col(offset))
      ensures usage != Cache ==> (HasCache(left) <==> old(HasCache(swapMap[offset])))
      ensures usage != Cache && Digit(old(Count(swapMap[offset]))) <= SWAP_MAP_MAX ==>
        Digit(Count(left)) <= SWAP_MAP_MAX && Value(offset) == old(Value(offset)) - 1
      ensures usage != Cache && old(Count(swapMap[offset])) == SWAP_MAP_SHMEM ==> Count(left) == 0
      ensures usage != Cache && old(Count(swapMap[offset])) == SWAP_MAP_BAD ==> left == old(swapMap[offset])
      ensures inusePages == old(inusePages) - if left == 0 then 1 else 0
      ensures lowestBit == if left == 0 && offset < old(lowestBit) then offset else old(lowestBit)
      ensures highestBit == if left == 0 && offset > old(highestBit) then offset else old(highestBit)
    {
      left := DropReference(offset, usage);
      Settle(offset, old(swapMap[..]));
    }

    /** The bounds and the counter, when an entry may have become free. */
    method Settle(offset: nat, ghost before: seq<Byte>)
      requires swapMap.Length == max == |before| && 0 < offset < max
      requires SlotFacts(before, pages, lowestBit, highestBit, inusePages, clusterNext)
      requires swapMap[..] == before[offset := swapMap[offset]] && before[offset] != 0
      requires Good(swapMap[offset]) <==> Good(before[offset])
      modifies this`lowestBit, this`highestBit, this`inusePages
      ensures SlotsOK() && inusePages == old(inusePages) - if swapMap[offset] == 0 then 1 else 0
      ensures lowestBit == if swapMap[offset] == 0 && offset < old(lowestBit) then offset else old(lowestBit)
      ensures highestBit == if swapMap[offset] == 0 && offset > old(highestBit) then offset else old(highestBit)
    {
      if swapMap[offset] == 0 {
        FreeKeepsFacts(before, pages, lowestBit, highestBit, inusePages, clusterNext, offset);
        if offset < lowestBit {
          lowestBit := offset;
        }
        if offset > highestBit {
          highestBit := offset;
        }
        inusePages := inusePages - 1;
      } else {
        ChangeKeepsFacts(before, pages, lowestBit, highestBit, inusePages, clusterNext, offset, swapMap[offset]);
      }
    }

    // ----- swap_duplicate -----

    /** One turn of the loop of swap_duplicate: `again` says that the carry needed a page and got one. */
    method DuplicateTurn(kind: nat, nrSwapfiles: nat, offset: nat, gotPage: bool) returns (err: Err, again: bool)
      requires CountsOK()
      modifies this`conts, swapMap, AllPages()
      ensures CountsOK() && (old(SlotsOK()) ==> SlotsOK())
      ensures again || err == ENOMEM <==>
        Ours(kind, nrSwapfiles, offset) && Countable(old(swapMap[offset])) && old(CarryStuck(offset))
      ensures err == if !gotPage && (again || err == ENOMEM) then ENOMEM else OK
      ensures again ==> gotPage && err == OK && !CarryStuck(offset)
      ensures again || err == ENOMEM ==>
        swapMap[..] == old(swapMap[..]) && (forall x | 0 <= x < max :: Value(x) == old(Value(x)))
      ensures again ==> forall p | p in AllPages() :: p in old(AllPages()) || fresh(p)
      ensures !again && err == OK ==> CountedOnce(kind, nrSwapfiles, offset)
    {
      assert offset < max ==> forall p | p in conts[offset / PAGE_SIZE] :: p in AllPages();
      var e := DuplicateEntry(kind, nrSwapfiles, offset, One);
      if e != ENOMEM {
        return OK, false;
      }
      err := GetRoom(offset, gotPage);
      again := err == OK;
    }

    /** A carry without room gets a page, or there is none to be got. */
    method GetRoom(offset: nat, gotPage: bool) returns (err: Err)
      requires CountsOK() && offset < max && CarryStuck(offset)
      modifies this`conts
      ensures CountsOK() && err == if gotPage then OK else ENOMEM
      ensures forall x | 0 <= x < max :: Value(x) == old(Value(x))
      ensures forall p | p in AllPages() :: p in old(AllPages()) || fresh(p)
      ensures gotPage ==> !CarryStuck(offset)
    {
      assert EntryOK(offset);
      StuckIff(offset);
      err := AddContinuation(offset, gotPage);
      assert EntryOK(offset);
      StuckIff(offset);
    }

    /** A countable entry of this device has one mapping more; every other entry is as it was. */
    twostate predicate CountedOnce(kind: nat, nrSwapfiles: nat, offset: nat)
      requires old(PagesOK()) && PagesOK()
      reads this`conts, swapMap, AllPages()
    {
      var counted := Ours(kind, nrSwapfiles, offset) && Countable(old(swapMap[offset]));
      && (forall x | 0 <= x < max && (x != offset || !counted) ::
            swapMap[x] == old(swapMap[x]) && Value(x) == old(Value(x)))
      && (counted ==>
            && Value(offset) == old(Value(offset)) + 1
            && (HasCache(swapMap[offset]) <==> old(HasCache(swapMap[offset]))))
    }

    /** swap_duplicate: count a mapping, adding a continuation page when the carry needs one.  An
        entry that is unused, bad or not of this device is left alone and reported as a success.
        `gotPage` says whether alloc_page finds a page; when it does, the second turn succeeds. */
    method SwapDuplicate(kind: nat, nrSwapfiles: nat, offset: nat, gotPage: bool) returns (err: Err)
      requires CountsOK()
      modifies this`conts, swapMap, AllPages()
      ensures CountsOK() && (old(SlotsOK()) ==> SlotsOK())
      ensures err == OK || err == ENOMEM
      ensures err == ENOMEM <==>
        && !gotPage
        && kind != 8 && kind != 9 && kind < nrSwapfiles && offset < max && old(CarryStuck(offset))
      ensures err == OK ==>
        var counted := kind != 8 && kind != 9 && kind < nrSwapfiles && offset < max
          && old(swapMap[offset]) != 0 && Digit(old(Count(swapMap[offset]))) <= 0x3e;
        && (forall x | 0 <= x < max && (x != offset || !counted) ::
              swapMap[x] == old(swapMap[x]) && Value(x) == old(Value(x)))
        && (counted ==>
              && Value(offset) == old(Value(offset)) + 1
              && (HasCache(swapMap[offset]) <==> old(HasCache(swapMap[offset]))))
      ensures err == ENOMEM ==>
        swapMap[..] == old(swapMap[..]) && (forall x | 0 <= x < max :: Value(x) == old(Value(x)))
    {
      while true
        invariant CountsOK() && (old(SlotsOK()) ==> SlotsOK())
        invariant forall p | p in AllPages() :: p in old(AllPages()) || fresh(p)
        invariant swapMap[..] == old(swapMap[..])
        invariant forall x | 0 <= x < max :: Value(x) == old(Value(x))
        invariant offset < max && CarryStuck(offset) ==> old(CarryStuck(offset))
        invariant gotPage || (offset < max && old(CarryStuck(offset)) ==> CarryStuck(offset))
        decreases if offset < max && CarryStuck(offset) then 1 else 0
      {
        var again: bool;
        err, again := DuplicateTurn(kind, nrSwapfiles, offset, gotPage);
        if !again {
          return;
        }
      }
    }
  }

  /** An entry that shmem may claim: no mapping was counted yet, or none ever is. */
  predicate FreshForShmem(b: Byte) {
    Count(b) == 0 || Digit(Count(b)) > SWAP_MAP_MAX
  }

  /** An entry whose mappings __swap_duplicate counts: in use, and neither bad nor shmem. */
  predicate Countable(b: Byte) {
    b != 0 && Digit(Count(b)) <= SWAP_MAP_MAX
  }

  const CLUSTER: nat := 256

  /** The search finds the first run of 256 free entries from `start` up to the upper bound, or else the first
      one from the lower bound that ends in front of `start`, or there is none. */
  ghost predicate FirstRun(s: seq<Byte>, lowest: nat, highest: nat, start: nat, found: bool, r: nat) {
    if exists i: nat :: start <= i && i + CLUSTER - 1 <= highest && FreeRun(s, i)
    then found && start <= r && FreeRun(s, r) && forall i: nat | start <= i < r :: !FreeRun(s, i)
    else if exists i: nat :: lowest <= i && i + CLUSTER <= start && FreeRun(s, i)
    then
      found && lowest <= r && r + CLUSTER <= start && FreeRun(s, r) && forall i: nat | lowest <= i < r :: !FreeRun(s, i)
    else !found
  }

  lemma BoundsMeetOrClosed(s: seq<Byte>, pages: nat, lowest: nat, highest: nat, inuse: nat, next: nat)
    requires SlotFacts(s, pages, lowest, highest, inuse, next)
    ensures highest > 0 ==> lowest <= highest < |s|
    ensures highest == 0 <==> forall i | 0 <= i < |s| :: s[i] != 0
  {
    ClosedBounds(s, pages, lowest, highest, inuse, next);
    if highest > 0 {
      BoundsMeet(s, pages, lowest, highest, inuse, next);
    }
  }

  /** What a scan answers when it starts at `next` or, on a rotating disk that is searched for a new cluster,
      at the lower bound. */
  ghost predicate ScanAnswer(s: seq<Byte>, low: nat, high: nat, next: nat, solid: bool, searches: bool, r: nat,
                             cluster: bool) {
    && (cluster ==> searches && high > 0)
    && (searches ==> FirstRun(s, low, high, if solid then next else low, cluster, r))
    && (!cluster ==> Picks(s, low, high, if !solid && searches then low else next, r))
  }

  /** The answer, entry by entry: a new cluster is 256 free entries, the first ones from the start on, or else
      the first ones from the lower bound up to the start.  Without one, it is the first free entry from the
      start up to the upper bound, or else behind the lower bound.  It is 0 exactly when no entry is free, or
      only the one at the lower bound, which the scan does not look at when it starts above it. */
  lemma ScanMeans(s: seq<Byte>, pages: nat, low: nat, high: nat, inuse: nat, next: nat, solid: bool, searches: bool,
                  r: nat, cluster: bool)
    requires SlotFacts(s, pages, low, high, inuse, next)
    requires ScanAnswer(s, low, high, next, solid, searches, r, cluster)
    ensures cluster ==> r + 256 <= |s| && forall i | r <= i < r + 256 :: s[i] == 0
    ensures searches ==>
      var start := if solid then next else low;
      if exists i: nat :: start <= i && i + 255 <= high && FreeRun(s, i)
      then cluster && start <= r && forall i: nat | start <= i < r :: !FreeRun(s, i)
      else if exists i: nat :: low <= i && i + 256 <= start && FreeRun(s, i)
      then cluster && low <= r && r + 256 <= start && forall i: nat | low <= i < r :: !FreeRun(s, i)
      else !cluster
    ensures !cluster && high > 0 ==>
      var start := if !solid && searches then low else next;
      var from := if start > high then low else start;
      && from < |s|
      && if s[from] == 0 then r == from
         else if exists i :: from < i <= high && s[i] == 0
         then from < r <= high && s[r] == 0 && forall i | from < i < r :: s[i] != 0
         else if exists i :: low < i < from && s[i] == 0
         then low < r < from && s[r] == 0 && forall i | low < i < r :: s[i] != 0
         else r == 0
    ensures
      var start := if !solid && searches then low else next;
      r == 0 <==>
        || (forall i | 0 <= i < |s| :: s[i] != 0)
        || (low < start <= high && forall i | 0 <= i < |s| && i != low :: s[i] != 0)
  {
    BoundsMeetOrClosed(s, pages, low, high, inuse, next);
    var start := if !solid && searches then low else next;
    if cluster {
      RunStartsFree(s, r);
      RunsInBounds(s, pages, low, high, inuse, next);
    } else if r == 0 && high > 0 {
      ScanFailed(s, pages, low, high, inuse, next, start);
    }
  }

  /** 256 free entries in a row. */
  ghost predicate FreeRun(s: seq<Byte>, start: nat) {
    start + CLUSTER <= |s| && forall i | start <= i < start + CLUSTER :: s[i] == 0
  }

  /** The free entry that the wrap-around pass, which begins behind lowest_bit, does not look at. */
  ghost predicate Overlooked(s: seq<Byte>, lowest: nat, highest: nat, start: nat) {
    lowest < start <= highest && forall o | 0 <= o < |s| && o != lowest :: s[o] != 0
  }

  /** r is the first free entry behind `from` and up to `last`. */
  ghost predicate FirstFree(s: seq<Byte>, from: nat, last: int, r: nat) {
    from < r <= last < |s| && s[r] == 0 && forall i | from < i < r :: s[i] != 0
  }

  ghost predicate AllUsed(s: seq<Byte>, from: nat, last: int) {
    forall i | from < i <= last && i < |s| :: s[i] != 0
  }

  /** What the scan answers when it starts at `start`: the start itself, the first free entry from there
      to the upper bound, the first one behind the lower bound, or 0. */
  ghost predicate Picks(s: seq<Byte>, lowest: nat, highest: nat, start: nat, r: nat) {
    var from := if start > highest then lowest else start;
    if highest == 0 || from >= |s| then r == 0
    else if s[from] == 0 then r == from
    else if AllUsed(s, from, highest) then
      if AllUsed(s, lowest, from - 1) then r == 0 else FirstFree(s, lowest, from - 1, r)
    else FirstFree(s, from, highest, r)
  }

  // ----- a run of the slot allocator that overlooks a free entry -----

  /** The fields the slot allocator works on. */
  datatype Slots = Slots(s: seq<Byte>, lowest: nat, highest: nat, next: nat)

  /** ScanSwapMap took entry r, and some entry is still free; or EntryFree freed entry o. */
  ghost predicate SlotStep(a: Slots, b: Slots, taken: bool, o: nat) {
    && 0 < o < |a.s|
    && if taken
       then
         && Picks(a.s, a.lowest, a.highest, a.next, o) && a.s[o] == 0 && !NoneFree(a.s[o := 1])
         && b == Slots(a.s[o := 1], if o == a.lowest then o + 1 else a.lowest,
                       if o == a.highest then o - 1 else a.highest, o + 1)
       else
         && a.s[o] == 1
         && b == Slots(a.s[o := 0], if o < a.lowest then o else a.lowest,
                       if o > a.highest then o else a.highest, a.next)
  }

  lemma SlotTake(a: Slots, b: Slots, o: nat, left: nat)
    requires 0 < o < |a.s| && Picks(a.s, a.lowest, a.highest, a.next, o) && a.s[o] == 0
    requires left < |a.s| && left != o && a.s[left] == 0
    requires b == Slots(a.s[o := 1], if o == a.lowest then o + 1 else a.lowest,
                        if o == a.highest then o - 1 else a.highest, o + 1)
    ensures SlotStep(a, b, true, o)
  {
    assert a.s[o := 1][left] == 0;
  }

  /** The run: on a new device of four entries, take 1, 2 and 3, free 1, take 4, free 2, take 1, free 1,
      take 2. */
  function OverlookingRun(): seq<Slots> {
    [Slots([SWAP_MAP_BAD, 0, 0, 0, 0], 1, 4, 1), Slots([SWAP_MAP_BAD, 1, 0, 0, 0], 2, 4, 2),
     Slots([SWAP_MAP_BAD, 1, 1, 0, 0], 3, 4, 3), Slots([SWAP_MAP_BAD, 1, 1, 1, 0], 4, 4, 4),
     Slots([SWAP_MAP_BAD, 0, 1, 1, 0], 1, 4, 4), Slots([SWAP_MAP_BAD, 0, 1, 1, 1], 1, 3, 5),
     Slots([SWAP_MAP_BAD, 0, 0, 1, 1], 1, 3, 5), Slots([SWAP_MAP_BAD, 1, 0, 1, 1], 2, 3, 2),
     Slots([SWAP_MAP_BAD, 0, 0, 1, 1], 1, 3, 2), Slots([SWAP_MAP_BAD, 0, 1, 1, 1], 1, 3, 3)]
  }

  /** After that run entry 1 is free, and the next scan answers 0. */
  lemma OverlookedExample()
    ensures var run := OverlookingRun();
      && SlotStep(run[0], run[1], true, 1) && SlotStep(run[1], run[2], true, 2) && SlotStep(run[2], run[3], true, 3)
      && SlotStep(run[3], run[4], false, 1) && SlotStep(run[4], run[5], true, 4) && SlotStep(run[5], run[6], false, 2)
      && SlotStep(run[6], run[7], true, 1) && SlotStep(run[7], run[8], false, 1) && SlotStep(run[8], run[9], true, 2)
      && Overlooked(run[9].s, run[9].lowest, run[9].highest, run[9].next) && run[9].s[1] == 0
      && Picks(run[9].s, run[9].lowest, run[9].highest, run[9].next, 0)
  {
    var run := OverlookingRun();
    SlotTake(run[0], run[1], 1, 2);
    SlotTake(run[1], run[2], 2, 3);
    SlotTake(run[2], run[3], 3, 4);
    SlotTake(run[4], run[5], 4, 1);
    SlotTake(run[6], run[7], 1, 2);
    SlotTake(run[8], run[9], 2, 1);
  }

  lemma PickedOnce(s: seq<Byte>, lowest: nat, highest: nat, start: nat, r: nat, o: nat)
    requires Picks(s, lowest, highest, start, r) && Picks(s, lowest, highest, start, o)
    ensures r == o
  {}

  lemma {:induction false} FewGood(s: seq<Byte>)
    ensures GoodCount(s) <= |s|
    decreases |s|
  {
    if s == [] {
    } else {
      FewGood(s[1..]);
    }
  }

  /** One scan of a small device, on the device itself. */
  method TakeOne(d: SwapInfo, o: nat, ghost a: Slots, ghost b: Slots)
    requires d.CountsOK() && d.SlotsOK() && d.max > 0 && d.pages < 256
    requires d.SlotState() == a && SlotStep(a, b, true, o)
    modifies d`lowestBit, d`highestBit, d`inusePages, d`clusterNext, d`clusterNr, d.swapMap
    ensures d.CountsOK() && d.SlotsOK() && d.SlotState() == b
  {
    var r, cluster := d.ScanSwapMap(1, false, true);
    PickedOnce(a.s, a.lowest, a.highest, a.next, r, o);
    assert d.swapMap[..] == b.s;
    UsedBelowGood(b.s);
  }

  /** The release of the only mapping of an entry without continuation pages. */
  method FreeOne(d: SwapInfo, o: nat, ghost a: Slots, ghost b: Slots)
    requires d.CountsOK() && d.SlotsOK() && forall h | 0 <= h < |d.conts| :: d.conts[h] == []
    requires d.SlotState() == a && SlotStep(a, b, false, o)
    modifies d`lowestBit, d`highestBit, d`inusePages, d.swapMap
    ensures d.CountsOK() && d.SlotsOK() && d.SlotState() == b
  {
    assert d.Value(o) == 1;
    var left := d.EntryFree(o, One);
    assert d.EntryOK(o);
    ColumnAt(d.conts[o / PAGE_SIZE], o % PAGE_SIZE);
    CountDown(Count(left), d.Col(o));
    assert left == 0;
    assert d.swapMap[..] == b.s;
  }

  /** A new device of four entries. */
  method SmallDevice() returns (d: SwapInfo)
    ensures fresh(d) && fresh(d.swapMap) && d.CountsOK() && d.SlotsOK() && d.max == 5 && d.pages < 256
    ensures d.SlotState() == OverlookingRun()[0] && forall h | 0 <= h < |d.conts| :: d.conts[h] == []
  {
    var none: set<nat> := {};
    assert 1 !in none;
    d := new SwapInfo(5, none);
    FewGood(d.swapMap[..]);
    assert d.swapMap[..] == OverlookingRun()[0].s;
  }

  /** The first three steps of the run: 1, 2 and 3 are taken. */
  method TakeAll(d: SwapInfo)
    requires d.CountsOK() && d.SlotsOK() && d.max == 5 && d.pages < 256 && d.SlotState() == OverlookingRun()[0]
    requires forall h | 0 <= h < |d.conts| :: d.conts[h] == []
    modifies d`lowestBit, d`highestBit, d`inusePages, d`clusterNext, d`clusterNr, d.swapMap
    ensures d.CountsOK() && d.SlotsOK() && d.SlotState() == OverlookingRun()[3]
  {
    ghost var run := OverlookingRun();
    OverlookedExample();
    TakeOne(d, 1, run[0], run[1]);
    TakeOne(d, 2, run[1], run[2]);
    TakeOne(d, 3, run[2], run[3]);
  }

  /** The next three: 1 is freed, 4 taken, 2 freed. */
  method FillUp(d: SwapInfo)
    requires d.CountsOK() && d.SlotsOK() && d.max == 5 && d.pages < 256 && d.SlotState() == OverlookingRun()[3]
    requires forall h | 0 <= h < |d.conts| :: d.conts[h] == []
    modifies d`lowestBit, d`highestBit, d`inusePages, d`clusterNext, d`clusterNr, d.swapMap
    ensures d.CountsOK() && d.SlotsOK() && d.SlotState() == OverlookingRun()[6]
  {
    ghost var run := OverlookingRun();
    OverlookedExample();
    FreeOne(d, 1, run[3], run[4]);
    TakeOne(d, 4, run[4], run[5]);
    FreeOne(d, 2, run[5], run[6]);
  }

  /** The last three: 1 is taken, freed again, and 2 taken. */
  method Overtake(d: SwapInfo)
    requires d.CountsOK() && d.SlotsOK() && d.max == 5 && d.pages < 256 && d.SlotState() == OverlookingRun()[6]
    requires forall h | 0 <= h < |d.conts| :: d.conts[h] == []
    modifies d`lowestBit, d`highestBit, d`inusePages, d`clusterNext, d`clusterNr, d.swapMap
    ensures d.CountsOK() && d.SlotsOK() && d.SlotState() == OverlookingRun()[9]
  {
    ghost var run := OverlookingRun();
    OverlookedExample();
    TakeOne(d, 1, run[6], run[7]);
    FreeOne(d, 1, run[7], run[8]);
    TakeOne(d, 2, run[8], run[9]);
  }

  /** The run of OverlookedExample on a new device: entry 1 is free at the end, and the scan answers 0. */
  method OverlookedRun() returns (d: SwapInfo, r: nat)
    ensures d.CountsOK() && d.SlotsOK() && d.max == 5 && d.swapMap[1] == 0 && r == 0
  {
    d := SmallDevice();
    TakeAll(d);
    FillUp(d);
    Overtake(d);
    ghost var last := OverlookingRun()[9];
    OverlookedExample();
    var cluster: bool;
    r, cluster := d.ScanSwapMap(1, false, true);
    PickedOnce(last.s, last.lowest, last.highest, last.next, r, 0);
  }

  lemma UsedBlocksRuns(s: seq<Byte>, o: nat)
    requires o < |s| && s[o] != 0
    ensures forall i: nat | i <= o < i + CLUSTER :: !FreeRun(s, i)
  {}

  lemma RunStartsFree(s: seq<Byte>, start: nat)
    requires FreeRun(s, start)
    ensures start + 1 < |s| && s[start] == 0 && s[start + 1] == 0
  {}

  lemma RunsInBounds(s: seq<Byte>, pages: nat, lowest: nat, highest: nat, inuse: nat, next: nat)
    requires SlotFacts(s, pages, lowest, highest, inuse, next)
    ensures forall i: nat | FreeRun(s, i) :: lowest <= i && i + CLUSTER - 1 <= highest
  {
    forall i: nat | FreeRun(s, i)
      ensures lowest <= i && i + CLUSTER - 1 <= highest
    {
      assert s[i] == 0 && s[i + (CLUSTER - 1)] == 0;
    }
  }

  /** When both passes fail, the only free entry is the one they do not look at. */
  lemma ScanFailed(s: seq<Byte>, pages: nat, lowest: nat, highest: nat, inuse: nat, next: nat, start: nat)
    requires SlotFacts(s, pages, lowest, highest, inuse, next) && 0 < highest < |s| && lowest <= highest
    requires var from := if start > highest then lowest else start;
      s[from] != 0 && (forall i | from < i <= highest :: s[i] != 0) && (forall i | lowest < i < from :: s[i] != 0)
    ensures Overlooked(s, lowest, highest, start)
  {
    ClosedBounds(s, pages, lowest, highest, inuse, next);
    var x :| 0 <= x < |s| && s[x] == 0;
    assert lowest <= x <= highest;
  }

  /** The upper bound is 0 exactly when no entry is free. */
  lemma ClosedBounds(s: seq<Byte>, pages: nat, lowest: nat, highest: nat, inuse: nat, next: nat)
    requires SlotFacts(s, pages, lowest, highest, inuse, next)
    ensures highest == 0 <==> NoneFree(s)
  {
    UsedBelowGood(s);
  }

  /** With a nonzero upper bound some entry is free, and the bounds are in order. */
  lemma BoundsMeet(s: seq<Byte>, pages: nat, lowest: nat, highest: nat, inuse: nat, next: nat)
    requires SlotFacts(s, pages, lowest, highest, inuse, next) && highest > 0
    ensures lowest <= highest < |s|
  {
    UsedBelowGood(s);
  }
}

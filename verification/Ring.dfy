/** The write-out ring of one destination node: slots are reserved at the tail, filled in any
    order, and flushed from the head in batches of pages that look contiguous. */
module WriteOutRing {
  import Bits
  import opened Common
  import opened GroupQueue

  type PageData = seq<bv8>

  /** A slot inside the window, with the page it was reserved for. */
  datatype Entry =
    | Filling(page: nat)
    | Ready(page: nat, data: PageData)

  ghost function PagesIn(window: seq<Entry>): seq<nat> {
    seq(|window|, i requires 0 <= i < |window| => window[i].page)
  }

  // ----- which slots a flush takes -----

  /** The test the flush uses for "page b follows page a". */
  predicate Joins(a: nat, b: nat) {
    b % 1024 - 1 == a % 1024
  }

  /** How many pages a flush takes from the head, when `room` slots are left before the wrap. */
  ghost function BatchLen(window: seq<Entry>, room: nat): (n: nat)
    ensures n <= |window| && n <= room
    decreases |window|
  {
    if window == [] || room == 0 || window[0].Filling? then 0
    else if |window| > 1 && room > 1 && window[1].Ready? && Joins(window[0].page, window[1].page)
    then 1 + BatchLen(window[1..], room - 1)
    else 1
  }

  lemma {:induction false} BatchJoins(window: seq<Entry>, room: nat)
    ensures var n := BatchLen(window, room);
      && (forall i | 0 <= i < n :: window[i].Ready?)
      && (forall i, j | 0 <= i && j == i + 1 < n :: Joins(window[i].page, window[j].page))
      && (n == |window| || n == room || n == 0 || window[n].Filling? || !Joins(window[n - 1].page, window[n].page))
      && (n == 0 <==> window == [] || room == 0 || window[0].Filling?)
    decreases |window|
  {
    if |window| > 1 && room > 1 && window[0].Ready? && window[1].Ready? && Joins(window[0].page, window[1].page) {
      BatchJoins(window[1..], room - 1);
      var n := BatchLen(window, room);
      forall i, j | 0 <= i && j == i + 1 < n
        ensures Joins(window[i].page, window[j].page)
      {
        if i > 0 {
          assert Joins(window[1..][i - 1].page, window[1..][j - 1].page);
        }
      }
    }
  }

  /** The batch in numbers: filled slots whose page numbers follow one another modulo 1024, up to the wrap, to
      the end of the window, to a slot that is not filled, or to a page that does not follow. */
  lemma BatchMeans(window: seq<Entry>, room: nat)
    ensures var n := BatchLen(window, room);
      && n <= |window| && n <= room
      && (forall i | 0 <= i < n :: window[i].Ready?)
      && (forall i, j | 0 <= i && j == i + 1 < n :: window[j].page % 1024 == window[i].page % 1024 + 1)
      && (0 < n < |window| && n < room && window[n].Ready? ==>
            window[n].page % 1024 != window[n - 1].page % 1024 + 1)
      && (n == 0 ==> window == [] || room == 0 || window[0].Filling?)
  {
    BatchJoins(window, room);
    var n := BatchLen(window, room);
    forall i, j | 0 <= i && j == i + 1 < n
      ensures window[j].page % 1024 == window[i].page % 1024 + 1
    {
      assert Joins(window[i].page, window[j].page);
    }
  }

  // ----- RDMA on byte offsets -----

  const RPING_BUFSIZE: nat := 4 * 1024 * 1024

  /** The misalignment test of do_write and do_read, on byte offsets: true when the call is refused. */
  predicate Misaligned(localOffset: nat, remoteOffset: nat, size: nat) {
    localOffset % RPING_BUFSIZE + size > RPING_BUFSIZE || remoteOffset % RPING_BUFSIZE + size > RPING_BUFSIZE
  }

  /** A transfer of `count` pages between local page `local` and remote page `remote`, which lies
      `shift` groups of 1024 pages behind the start of the remote buffers. */
  predicate Refused(local: nat, remote: nat, shift: nat, count: nat) {
    Misaligned(local * PAGE_SIZE, remote * PAGE_SIZE + shift * 1024 * PAGE_SIZE, count * PAGE_SIZE)
  }

  /** COMEX_RDMA_fn with PAGE_WRTE: write consecutive pages, unless the call is refused. */
  method DoWrite(local: nat, remote: nat, shift: nat, data: seq<PageData>, mem: map<nat, PageData>)
    returns (ok: bool, mem': map<nat, PageData>)
    ensures ok <==> !Refused(local, remote, shift, |data|)
    ensures !ok ==> mem' == mem
    ensures ok ==> mem' == WriteRun(mem, remote, data) && forall p: nat :: PageAfter(mem, remote, data, p, mem')
  {
    ok := !Refused(local, remote, shift, |data|);
    if !ok {
      return ok, mem;
    }
    mem' := WriteRun(mem, remote, data);
    forall p: nat
      ensures PageAfter(mem, remote, data, p, mem')
    {
      WriteRunAt(mem, remote, data, p);
    }
  }

  /** Page p after a write of consecutive pages: one of those written, or as it was. */
  ghost predicate PageAfter(mem: map<nat, PageData>, base: nat, data: seq<PageData>, p: nat, mem': map<nat, PageData>) {
    if base <= p < base + |data| then p in mem' && mem'[p] == data[p - base]
    else (p in mem' <==> p in mem) && (p in mem ==> mem'[p] == mem[p])
  }

  lemma RegionBytes(page: nat, count: nat)
    requires page % 1024 + count <= 1024
    ensures (page * PAGE_SIZE) % RPING_BUFSIZE + count * PAGE_SIZE <= RPING_BUFSIZE
  {
    var q, r := page / 1024, page % 1024;
    assert page == 1024 * q + r;
    assert page * PAGE_SIZE == RPING_BUFSIZE * q + r * PAGE_SIZE;
  }

  /** A transfer is refused exactly when one of its sides crosses the border of a 1024-page region. */
  lemma RefusedIff(local: nat, remote: nat, shift: nat, count: nat)
    ensures Refused(local, remote, shift, count) <==> local % 1024 + count > 1024 || remote % 1024 + count > 1024
  {
    RegionOffset(local);
    assert (remote + shift * 1024) % 1024 == remote % 1024;
    RegionOffset(remote + shift * 1024);
  }

  lemma RegionOffset(page: nat)
    ensures (page * PAGE_SIZE) % RPING_BUFSIZE == page % 1024 * PAGE_SIZE
  {
    var q, r := page / 1024, page % 1024;
    assert page == 1024 * q + r;
    assert page * PAGE_SIZE == RPING_BUFSIZE * q + r * PAGE_SIZE;
  }

  /** A transfer that stays inside one 1024-page region on both sides is not refused. */
  lemma NotRefused(local: nat, remote: nat, shift: nat, count: nat)
    requires local % 1024 + count <= 1024 && remote % 1024 + count <= 1024
    ensures !Refused(local, remote, shift, count)
  {
    RegionBytes(local, count);
    assert (remote + shift * 1024) % 1024 == remote % 1024;
    RegionBytes(remote + shift * 1024, count);
  }

  /** Remote memory after an RDMA write of consecutive pages. */
  function WriteRun(mem: map<nat, PageData>, base: nat, data: seq<PageData>): map<nat, PageData>
    decreases |data|
  {
    if data == [] then mem else WriteRun(mem[base := data[0]], base + 1, data[1..])
  }

  lemma {:induction false} WriteRunAt(mem: map<nat, PageData>, base: nat, data: seq<PageData>, p: nat)
    ensures PageAfter(mem, base, data, p, WriteRun(mem, base, data))
    decreases |data|
  {
    if data == [] {
    } else {
      WriteRunAt(mem[base := data[0]], base + 1, data[1..], p);
    }
  }

  /** The data of the n leading entries of a window. */
  ghost function BatchData(window: seq<Entry>, n: nat): seq<PageData>
    requires n <= |window| && forall i | 0 <= i < n :: window[i].Ready?
  {
    seq(n, i requires 0 <= i < n => window[i].data)
  }

  /** Remote memory after the flush of a window. */
  ghost function Flushed(mem: map<nat, PageData>, window: seq<Entry>, room: nat): map<nat, PageData> {
    BatchJoins(window, room);
    var n := BatchLen(window, room);
    if n == 0 then mem else WriteRun(mem, window[0].page, BatchData(window, n))
  }

  /** Page by page: the pages counted from that of the first entry on get the data of the batch, in order, and
      all others are as before. */
  lemma FlushedPages(mem: map<nat, PageData>, window: seq<Entry>, room: nat, p: nat)
    ensures var n, mem' := BatchLen(window, room), Flushed(mem, window, room);
      if n > 0 && window[0].page <= p < window[0].page + n
      then p in mem' && window[p - window[0].page] == Ready(window[p - window[0].page].page, mem'[p])
      else (p in mem' <==> p in mem) && (p in mem ==> mem'[p] == mem[p])
  {
    BatchJoins(window, room);
    var n := BatchLen(window, room);
    if n > 0 {
      WriteRunAt(mem, window[0].page, BatchData(window, n), p);
    }
  }

  lemma PagesOfAppend(window: seq<Entry>, e: Entry)
    ensures PagesIn(window + [e]) == PagesIn(window) + [e.page]
  {}

  lemma PagesOfUpdate(window: seq<Entry>, i: nat, e: Entry)
    requires i < |window| && window[i].page == e.page
    ensures PagesIn(window[i := e]) == PagesIn(window)
  {}

  lemma PagesOfCut(done: seq<nat>, window: seq<Entry>, n: nat)
    requires n <= |window|
    ensures done + PagesIn(window) == done + PagesIn(window[..n]) + PagesIn(window[n..])
  {
    assert PagesIn(window) == PagesIn(window[..n]) + PagesIn(window[n..]);
  }

  lemma HeadMoves(written: seq<nat>, window: seq<Entry>, count: nat, size: nat)
    requires size > 0 && count <= |window| && SlotOf(|written|, size) + count <= size
    ensures SlotOf(|written + PagesIn(window[..count])|, size) == Past(SlotOf(|written|, size), count, size)
  {
    SlotPlus(|written|, count, size);
    assert |written + PagesIn(window[..count])| == |written| + count;
  }

  /** x %= n, for an x that is at most n. */
  method Wrap(x: nat, n: nat) returns (r: nat)
    requires n > 0 && x <= n
    ensures r == if x == n then 0 else x
  {
    r := x % n;
  }

  /** A slot i places behind the head holds entry i of the window, or is free. */
  ghost predicate EntryHolds(status: int, pageNO: int, data: PageData, window: seq<Entry>, i: nat) {
    if i < |window| then
      match window[i]
      case Filling(_) => status == 1 && pageNO == -1
      case Ready(p, d) => status == 2 && pageNO == p && data == d
    else status == -1 && pageNO == -1
  }

  /** How many slots s is behind the head on a ring of the given size. */
  ghost function Distance(s: nat, head: nat, size: nat): nat
    requires s < size && head < size
  {
    if s >= head then s - head else s + size - head
  }

  /** The slot n places behind slot `head`. */
  ghost function Past(head: nat, n: nat, size: nat): nat
    requires head < size && n <= size
  {
    if head + n < size then head + n else head + n - size
  }

  /** The slot that entry n of the stream of reserved pages gets: slots are taken in turn from 0 on. */
  ghost function SlotOf(n: nat, size: nat): (s: nat)
    requires size > 0
    ensures s < size
  {
    if n == 0 then 0 else Past(SlotOf(n - 1, size), 1, size)
  }

  lemma {:induction false} SlotIsMod(n: nat, size: nat)
    requires size > 0
    ensures SlotOf(n, size) == n % size
    decreases n
  {
    if n == 0 {
      Bits.DivMod(0, size, 0, 0);
    } else {
      SlotIsMod(n - 1, size);
      NextMod(n - 1, size);
    }
  }

  lemma NextMod(n: nat, size: nat)
    requires size > 0
    ensures (n + 1) % size == Past(n % size, 1, size)
  {
    var q, r := n / size, n % size;
    if r + 1 < size {
      Bits.DivMod(n + 1, size, q, r + 1);
    } else {
      assert size * (q + 1) == size * q + size;
      Bits.DivMod(n + 1, size, q + 1, 0);
    }
  }

  lemma {:induction false} SlotPlus(n: nat, c: nat, size: nat)
    requires size > 0 && SlotOf(n, size) + c <= size
    ensures SlotOf(n + c, size) == Past(SlotOf(n, size), c, size)
    decreases c
  {
    if c == 0 {
    } else {
      SlotPlus(n, c - 1, size);
    }
  }

  const FLUSH: nat := 32

  /** Filling this slot triggers a flush. */
  predicate FlushSlot(slot: nat) {
    slot % FLUSH == 0 && slot != 0
  }

  ghost predicate FullAndReady(window: seq<Entry>, size: nat) {
    |window| == size > 0 && window[0].Ready?
  }

  /** After the batch is cut off the window, the slots of the batch are free and every other slot
      holds what it held, that much closer to the head. */
  lemma SlotRetires(status: int, pageNO: int, data: PageData, window: seq<Entry>, s: nat,
                    head: nat, size: nat, count: nat)
    requires s < size && head < size && count <= |window| <= size && head + count <= size
    requires if head <= s < head + count then status == -1 && pageNO == -1
             else EntryHolds(status, pageNO, data, window, Distance(s, head, size))
    ensures EntryHolds(status, pageNO, data, window[count..],
                       Distance(s, if head + count == size then 0 else head + count, size))
  {}

  class Ring {
    const size: nat                 // COMEX_total_writeOut
    const local: nat                // the first local page of this ring's buffers
    const shift: nat                // remote_shift_offset, in groups of 1024 pages
    const status: array<int>
    const pageNO: array<int>
    const buff: array<PageData>     // the page-sized buffers of the slots
    var head: nat
    var tail: nat
    ghost var window: seq<Entry>    // the slots from head to tail
    ghost var reserved: seq<nat>    // every page ever put into the ring, in order
    ghost var written: seq<nat>     // every page flushed to remote memory, in order

    /** How far slot s is behind the head. */
    ghost function Behind(s: nat): nat
      requires s < size && head < size
      reads this`head
    {
      Distance(s, head, size)
    }

    /** Slot s is what the window says, or free. */
    ghost predicate SlotHolds(s: nat)
      requires s < size == status.Length == pageNO.Length == buff.Length && head < size
      reads this, status, pageNO, buff
    {
      EntryHolds(status[s], pageNO[s], buff[s], window, Behind(s))
    }

    ghost predicate Valid()
      reads this, status, pageNO, buff
    {
      && size == status.Length == pageNO.Length == buff.Length
      && status != pageNO && local % 1024 + size <= 1024
      && head < size && tail < size && |window| <= size
      && tail == Past(head, |window|, size)
      && (forall s | 0 <= s < size :: SlotHolds(s))
      && reserved == written + PagesIn(window)
      && head == SlotOf(|written|, size)
    }

    /** The ring of one node, whose buffers lie inside one 1024-page region, as they do when
        writeOut_buff divides 1024 (RingInRegion). */
    constructor (size: nat, local: nat, shift: nat)
      requires size > 0 && local % 1024 + size <= 1024
      ensures Valid() && window == [] && reserved == [] && this.size == size
      ensures this.local == local && this.shift == shift
      ensures fresh(status) && fresh(pageNO) && fresh(buff)
    {
      this.size, this.local, this.shift := size, local, shift;
      status := new int[size](i => -1);
      pageNO := new int[size](i => -1);
      buff := new PageData[size](i => []);
      head, tail := 0, 0;
      window, reserved, written := [], [], [];
    }

    /** The tail slot is free exactly when the ring is not full. */
    lemma TailFree()
      requires Valid()
      ensures status[tail] == -1 <==> |window| < size
      ensures |window| == size ==> tail == head
    {
      assert SlotHolds(tail);
    }

    /** Reserve the tail slot for page p (COMEX_move_to_Remote, under mutex_FG). */
    method Reserve(p: nat) returns (slot: nat)
      requires Valid() && status[tail] == -1
      modifies this`tail, this`window, this`reserved, status
      ensures Valid() && slot == old(tail) && window == old(window) + [Filling(p)]
      ensures reserved == old(reserved) + [p]
      ensures slot < size && Behind(slot) == |old(window)|
    {
      TailFree();
      slot := tail;
      tail := tail + 1;
      tail := Wrap(tail, size);
      status[slot] := 1;
      PagesOfAppend(window, Filling(p));
      window := window + [Filling(p)];
      reserved := reserved + [p];
      forall s | 0 <= s < size
        ensures SlotHolds(s)
      {
        assert old(SlotHolds(s));
      }
    }

    /** Copy the page into its slot and mark it ready. */
    method Fill(slot: nat, p: nat, data: PageData)
      requires Valid() && slot < size && Behind(slot) < |window| && window[Behind(slot)] == Filling(p)
      modifies this`window, status, pageNO, buff
      ensures Valid() && window == old(window)[Behind(slot) := Ready(p, data)]
    {
      PagesOfUpdate(window, Behind(slot), Ready(p, data));
      buff[slot] := data;
      pageNO[slot] := p;
      status[slot] := 2;
      window := window[Behind(slot) := Ready(p, data)];
      forall s | 0 <= s < size
        ensures SlotHolds(s)
      {
        assert old(SlotHolds(s));
      }
    }

    /** COMEX_free_buff */
    method FreeBuff(first: nat, count: nat)
      requires size == status.Length == pageNO.Length && status != pageNO && first + count <= size
      modifies status, pageNO
      ensures forall s | 0 <= s < size ::
        if first <= s < first + count then status[s] == -1 && pageNO[s] == -1
        else status[s] == old(status[s]) && pageNO[s] == old(pageNO[s])
    {
      var slot, left := first, count;
      while left > 0
        invariant first <= slot && slot + left == first + count
        invariant forall s | 0 <= s < size ::
          if first <= s < slot then status[s] == -1 && pageNO[s] == -1
          else status[s] == old(status[s]) && pageNO[s] == old(pageNO[s])
      {
        pageNO[slot] := -1;
        status[slot] := -1;
        left := left - 1;
        slot := slot + 1;
      }
    }

    /** What the flush sees when it walks from the head: the batch, then a slot that ends it. */
    lemma BatchStops(n: nat)
      requires Valid() && n == BatchLen(window, size - head)
      ensures head + n <= size
      ensures forall s | head <= s < head + n :: status[s] == 2
      ensures forall s, t | head <= s && t == s + 1 < head + n :: pageNO[t] % 1024 - 1 == pageNO[s] % 1024
      ensures head + n < size && status[head + n] == 2 ==>
        n > 0 && pageNO[head + n] % 1024 - 1 != pageNO[head + n - 1] % 1024
    {
      BatchJoins(window, size - head);
      forall s | head <= s < head + n
        ensures status[s] == 2 && pageNO[s] == window[s - head].page
      {
        assert SlotHolds(s);
      }
      forall s, t | head <= s && t == s + 1 < head + n
        ensures pageNO[t] % 1024 - 1 == pageNO[s] % 1024
      {
        assert Joins(window[s - head].page, window[t - head].page);
      }
      if head + n < size {
        assert SlotHolds(head + n);
      }
    }

    /** The marking loop of COMEX_flush_buff: how many slots from the head form the batch. */
    method MarkBatch() returns (count: nat)
      requires Valid()
      modifies status
      ensures count == BatchLen(window, size - head)
      ensures forall s | 0 <= s < size :: status[s] == if head <= s < head + count then 3 else old(status[s])
    {
      ghost var n := BatchLen(window, size - head);
      BatchStops(n);
      count := 0;
      while status[head + count] == 2
        invariant count <= n && head + count < size
        invariant count == n ==> status[head + count] != 2
        invariant forall s | 0 <= s < size :: status[s] == if head <= s < head + count then 3 else old(status[s])
        decreases size - count
      {
        status[head + count] := 3;
        count := count + 1;
        if head + count >= size {
          break;
        }
        if pageNO[head + count] % 1024 - 1 != pageNO[head + count - 1] % 1024 && status[head + count] == 2 {
          break;
        }
      }
    }

    /** A ready tail slot means that the ring is full and its oldest page is filled. */
    lemma TailReady()
      requires Valid()
      ensures status[tail] == 2 <==> |window| == size && window[0].Ready?
      ensures |window| == size ==> tail == head
    {
      assert SlotHolds(tail);
    }

    /** The buffers from the head on hold the data of the batch. */
    lemma BatchBuffers(n: nat)
      requires Valid() && n <= |window| && head + n <= size && forall i | 0 <= i < n :: window[i].Ready?
      ensures buff[head..head + n] == BatchData(window, n)
      ensures n > 0 ==> pageNO[head] == window[0].page
    {
      forall j | 0 <= j < n
        ensures buff[head + j] == window[j].data && pageNO[head + j] == window[j].page
      {
        assert SlotHolds(head + j);
      }
    }

    /** The write of a batch is not refused, so the slots of the batch are freed after it. */
    lemma BatchFits(count: nat)
      requires head < size && local % 1024 + size <= 1024 && 0 < count == BatchLen(window, size - head)
      ensures !Refused(local + head, window[0].page, shift, count)
    {
      BatchInRegion(window, size - head);
      Inside(local, size, head, count);
      NotRefused(local + head, window[0].page, shift, count);
    }

    /** COMEX_flush_buff: write the batch at the head to remote memory, then free its slots. */
    method Flush(mem: map<nat, PageData>) returns (mem': map<nat, PageData>, count: nat)
      requires Valid()
      modifies this`head, this`window, this`written, status, pageNO
      ensures Valid() && count == BatchLen(old(window), size - old(head))
      ensures mem' == Flushed(mem, old(window), size - old(head))
      ensures window == old(window)[count..] && written == old(written) + PagesIn(old(window)[..count])
      ensures head == Past(old(head), count, size)
      ensures old(status[tail]) == 2 ==> count > 0 && status[tail] == -1
    {
      TailReady();
      BatchJoins(window, size - head);
      mem', count := SendBatch(mem);
      Retire(count, old(status[..]));
    }

    lemma SlotsHold()
      requires Valid()
      ensures forall s | 0 <= s < size :: EntryHolds(status[..][s], pageNO[s], buff[s], window, Behind(s))
    {
      forall s | 0 <= s < size
        ensures EntryHolds(status[..][s], pageNO[s], buff[s], window, Behind(s))
      {
        assert SlotHolds(s);
      }
    }

    /** Mark the batch and write it to remote memory. */
    method SendBatch(mem: map<nat, PageData>) returns (mem': map<nat, PageData>, count: nat)
      requires Valid()
      modifies status
      ensures count == BatchLen(window, size - head) && mem' == Flushed(mem, window, size - head)
      ensures forall s | 0 <= s < size :: status[s] == if head <= s < head + count then 3 else old(status[..])[s]
      ensures forall s | 0 <= s < size :: EntryHolds(old(status[..])[s], pageNO[s], buff[s], window, Behind(s))
    {
      BatchFacts();
      count := MarkHolding();
      mem' := WriteBatch(count, mem);
    }

    /** The batch is in the buffers from the head on. */
    lemma BatchFacts()
      requires Valid()
      ensures var n := BatchLen(window, size - head);
        && head + n <= size && (forall i | 0 <= i < n :: window[i].Ready?)
        && buff[head..head + n] == BatchData(window, n) && (n > 0 ==> pageNO[head] == window[0].page)
    {
      BatchJoins(window, size - head);
      BatchBuffers(BatchLen(window, size - head));
    }

    /** Mark the batch; what the slots held before stays known. */
    method MarkHolding() returns (count: nat)
      requires Valid()
      modifies status
      ensures count == BatchLen(window, size - head)
      ensures forall s | 0 <= s < size :: status[s] == if head <= s < head + count then 3 else old(status[..])[s]
      ensures forall s | 0 <= s < size :: EntryHolds(old(status[..])[s], pageNO[s], buff[s], window, Behind(s))
    {
      SlotsHold();
      count := MarkBatch();
    }

    /** Send the batch from the buffers of its slots to the remote page of its first one. */
    method WriteBatch(count: nat, mem: map<nat, PageData>) returns (mem': map<nat, PageData>)
      requires size == pageNO.Length == buff.Length && head < size && local % 1024 + size <= 1024
      requires count == BatchLen(window, size - head) && head + count <= size
      requires forall i | 0 <= i < count :: window[i].Ready?
      requires buff[head..head + count] == BatchData(window, count)
      requires count > 0 ==> pageNO[head] == window[0].page
      ensures mem' == Flushed(mem, window, size - head)
    {
      if count == 0 {
        return mem;
      }
      var ok: bool;
      BatchFits(count);
      ok, mem' := DoWrite(local + head, pageNO[head], shift, buff[head..head + count], mem);
    }

    /** Free the slots of the batch and advance the head past it. */
    method Retire(count: nat, ghost before: seq<int>)
      requires size == status.Length == pageNO.Length == buff.Length == |before| && status != pageNO
      requires local % 1024 + size <= 1024
      requires head < size && tail < size && count <= |window| <= size && head + count <= size
      requires tail == Past(head, |window|, size)
      requires reserved == written + PagesIn(window) && head == SlotOf(|written|, size)
      requires forall s | 0 <= s < size :: status[s] == if head <= s < head + count then 3 else before[s]
      requires forall s | 0 <= s < size :: EntryHolds(before[s], pageNO[s], buff[s], window, Behind(s))
      modifies this`head, this`window, this`written, status, pageNO
      ensures Valid() && window == old(window)[count..] && written == old(written) + PagesIn(old(window)[..count])
      ensures head == Past(old(head), count, size)
      ensures forall s | old(head) <= s < old(head) + count :: status[s] == -1
    {
      FreeBuff(head, count);
      forall s | 0 <= s < size
        ensures if head <= s < head + count then status[s] == -1 && pageNO[s] == -1
                else EntryHolds(status[s], pageNO[s], buff[s], window, Behind(s))
      {
        assert old(EntryHolds(before[s], pageNO[s], buff[s], window, Behind(s)));
      }
      Advance(count);
    }

    /** Once the slots of the batch are free, every slot holds what the cut window says. */
    lemma SlotsRetire(count: nat)
      requires size == status.Length == pageNO.Length == buff.Length
      requires head < size && count <= |window| <= size && head + count <= size
      requires forall s | 0 <= s < size ::
        if head <= s < head + count then status[s] == -1 && pageNO[s] == -1
        else EntryHolds(status[s], pageNO[s], buff[s], window, Behind(s))
      ensures forall s | 0 <= s < size ::
        EntryHolds(status[s], pageNO[s], buff[s], window[count..], Distance(s, Past(head, count, size), size))
    {
      forall s | 0 <= s < size
        ensures EntryHolds(status[s], pageNO[s], buff[s], window[count..], Distance(s, Past(head, count, size), size))
      {
        SlotRetires(status[s], pageNO[s], buff[s], window, s, head, size, count);
      }
    }

    /** buff_pos.head += count, modulo the ring size, once the slots of the batch are free. */
    method Advance(count: nat)
      requires size == status.Length == pageNO.Length == buff.Length && status != pageNO
      requires local % 1024 + size <= 1024
      requires head < size && tail < size && count <= |window| <= size && head + count <= size
      requires tail == Past(head, |window|, size)
      requires reserved == written + PagesIn(window) && head == SlotOf(|written|, size)
      requires forall s | 0 <= s < size ::
        if head <= s < head + count then status[s] == -1 && pageNO[s] == -1
        else EntryHolds(status[s], pageNO[s], buff[s], window, Behind(s))
      modifies this`head, this`window, this`written
      ensures Valid() && window == old(window)[count..] && written == old(written) + PagesIn(old(window)[..count])
      ensures head == Past(old(head), count, size)
    {
      SlotsRetire(count);
      PagesOfCut(written, window, count);
      HeadMoves(written, window, count, size);
      head := head + count;
      head := Wrap(head, size);
      written := written + PagesIn(window[..count]);
      window := window[count..];
    }

    /** COMEX_read_from_buffer: copy the page out of the ring if a ready slot holds it. */
    method ReadFromBuffer(p: nat) returns (hit: bool, data: PageData)
      requires Valid()
      ensures hit <==> Pending(window, p)
      ensures hit ==> Ready(p, data) in window
    {
      PendingSlot(p);
      for i := 0 to size
        invariant forall s | 0 <= s < i :: !(pageNO[s] == p && status[s] == 2)
      {
        if pageNO[i] == p && status[i] == 2 {
          assert SlotHolds(i);
          return true, buff[i];
        }
      }
      return false, [];
    }

    lemma PendingSlot(p: nat)
      requires Valid()
      ensures Pending(window, p) ==> exists s | 0 <= s < size :: pageNO[s] == p && status[s] == 2
    {
      if j :| 0 <= j < |window| && window[j].Ready? && window[j].page == p {
        var s := Past(head, j, size);
        assert SlotHolds(s);
      }
    }
  }

  /** Page p is ready in the ring and not yet flushed. */
  ghost predicate Pending(window: seq<Entry>, p: nat) {
    exists j | 0 <= j < |window| :: window[j].Ready? && window[j].page == p
  }

  // ----- where a batch goes -----

  /** remote_shift_offset in groups of 1024 pages: the local buffers, rounded up past the next
      multiple. */
  function RemoteShift(writeOut: nat, nodes: nat, readIn: nat): nat {
    (writeOut * nodes + readIn) / 1024 + 1
  }

  /** Remote page 0 lies right behind the first group border after all write-out and read-in buffers. */
  lemma RemoteBehind(writeOut: nat, nodes: nat, readIn: nat)
    ensures writeOut * nodes + readIn < RemoteShift(writeOut, nodes, readIn) * 1024
    ensures RemoteShift(writeOut, nodes, readIn) * 1024 <= writeOut * nodes + readIn + 1024
  {}

  /** Along a batch the page numbers rise by one modulo 1024 and never wrap. */
  lemma {:induction false} BatchOffsets(window: seq<Entry>, room: nat, i: nat)
    requires i < BatchLen(window, room)
    ensures window[i].page % 1024 == window[0].page % 1024 + i
    decreases i
  {
    BatchJoins(window, room);
    if i > 0 {
      BatchOffsets(window, room, i - 1);
      assert Joins(window[i - 1].page, window[i].page);
    }
  }

  /** The remote side of a batch stays inside one 1024-page region. */
  lemma BatchInRegion(window: seq<Entry>, room: nat)
    requires BatchLen(window, room) > 0
    ensures window[0].page % 1024 + BatchLen(window, room) <= 1024
  {
    BatchOffsets(window, room, BatchLen(window, room) - 1);
  }

  /** When the ring size divides 1024, every ring lies inside one 1024-page region of the local
      buffers. */
  lemma RingInRegion(node: nat, size: nat, m: nat, head: nat, count: nat)
    requires size * m == 1024 && head + count <= size && head < size
    ensures (node * size + head) % 1024 + count <= 1024
  {
    var q, r := node / m, node % m;
    NodeOffset(node, size, m, q, r);
    LastRing(size, m, r);
    Region(node * size, r * size, q, size, head, count);
  }

  lemma Inside(local: nat, size: nat, head: nat, count: nat)
    requires local % 1024 + size <= 1024 && head + count <= size && head < size
    ensures (local + head) % 1024 + count <= 1024
  {}

  lemma Region(start: nat, low: nat, q: nat, size: nat, head: nat, count: nat)
    requires start == 1024 * q + low && low + size <= 1024 && head + count <= size && head < size
    ensures (start + head) % 1024 + count <= 1024
  {}

  lemma NodeOffset(node: nat, size: nat, m: nat, q: nat, r: nat)
    requires size * m == 1024 && node == m * q + r
    ensures node * size == 1024 * q + r * size
  {
    assert (m * q + r) * size == (m * q) * size + r * size;
    assert (m * q) * size == (size * m) * q;
  }

  lemma LastRing(size: nat, m: nat, r: nat)
    requires size * m == 1024 && r < m
    ensures r * size + size <= 1024
  {
    Bits.MulMonotonic(size, r + 1, m);
    assert size * r == r * size;
  }

  /** No flush is refused: for any ring contents, any node and any buffer sizes whose ring size
      divides 1024, do_write's misalignment test passes. */
  lemma FlushNeverRefused(window: seq<Entry>, node: nat, nodes: nat, size: nat, m: nat, readIn: nat, head: nat)
    requires size * m == 1024 && head < size && BatchLen(window, size - head) > 0
    ensures !Refused(node * size + head, window[0].page, RemoteShift(size, nodes, readIn),
                     BatchLen(window, size - head))
  {
    var count := BatchLen(window, size - head);
    BatchInRegion(window, size - head);
    RingInRegion(node, size, m, head, count);
    NotRefused(node * size + head, window[0].page, RemoteShift(size, nodes, readIn), count);
  }

  // ----- when every page goes to its own number -----

  /** The flush of a window writes each page of the batch to the remote page of its number. */
  ghost predicate Faithful(window: seq<Entry>, room: nat) {
    forall i | 0 <= i < BatchLen(window, room) :: window[i].page == window[0].page + i
  }

  /** Group b, arriving right after group a, looks contiguous to the flush but is not. */
  ghost predicate FalseJoin(a: Group, b: Group) {
    Joins(a.pageEnd, b.pageStart) && b.pageStart != a.pageEnd + 1
  }

  ghost predicate NoFalseJoin(groups: seq<Group>) {
    forall i, j | 0 <= i && j == i + 1 < |groups| :: !FalseJoin(groups[i], groups[j])
  }

  /** The entries of the window are reserved for the pages of the stream from m on. */
  ghost predicate Carries(window: seq<Entry>, pages: seq<nat>, m: nat) {
    && m + |window| <= |pages|
    && forall i | 0 <= i < |window| :: window[i].page == pages[m + i]
  }

  lemma LastOfGroup(g: Group)
    requires NonEmpty(g)
    ensures |GroupPages(g)| == g.pageEnd - g.pageStart + 1
    ensures forall i | 0 <= i < |GroupPages(g)| :: GroupPages(g)[i] == g.pageStart + i
  {
    SpanAt(g.pageStart, g.pageEnd - g.pageStart + 1);
  }

  lemma FirstJoin(groups: seq<Group>)
    requires |groups| > 1
    ensures NoFalseJoin(groups) <==> !FalseJoin(groups[0], groups[1]) && NoFalseJoin(groups[1..])
  {
    var rest := groups[1..];
    if NoFalseJoin(groups) {
      forall i, j | 0 <= i && j == i + 1 < |rest|
        ensures !FalseJoin(rest[i], rest[j])
      {
        assert rest[i] == groups[i + 1] && rest[j] == groups[j + 1];
      }
    }
    if !FalseJoin(groups[0], groups[1]) && NoFalseJoin(rest) {
      forall i, j | 0 <= i && j == i + 1 < |groups|
        ensures !FalseJoin(groups[i], groups[j])
      {
        if i > 0 {
          assert groups[i] == rest[i - 1] && groups[j] == rest[j - 1];
        }
      }
    }
  }

  // ----- the same for one ring: a batch never goes past the last slot -----

  /** Pages that look contiguous are, in a ring of `size` slots that is filled from slot `at` on, where a
      page in slot 0 is never in one batch with the page before it. */
  ghost predicate RingJoins(pages: seq<nat>, at: nat, size: nat) {
    forall i, j | 0 <= i && j == i + 1 < |pages| && at + j != size && Joins(pages[i], pages[j]) ::
      pages[j] == pages[i] + 1
  }

  /** Pages that look contiguous are, where the pages of the whole stream are put into the ring in turn and
      its first page is number `at`. */
  ghost predicate StreamJoins(pages: seq<nat>, at: nat, size: nat)
    requires size > 0
  {
    forall i, j | 0 <= i && j == i + 1 < |pages| && SlotOf(at + j, size) != 0 && Joins(pages[i], pages[j]) ::
      pages[j] == pages[i] + 1
  }

  /** The flush of a ring whose oldest slot is `head` takes only pages in the slots up to the last one. */
  lemma RealWindow(window: seq<Entry>, head: nat, size: nat)
    requires head <= size && RingJoins(PagesIn(window), head, size)
    ensures Faithful(window, size - head)
  {
    var room := size - head;
    BatchJoins(window, room);
    var n := BatchLen(window, room);
    for i := 0 to n
      invariant forall j | 0 <= j < i :: window[j].page == window[0].page + j
    {
      if i == 0 {
      } else {
        assert Joins(PagesIn(window)[i - 1], PagesIn(window)[i]);
      }
    }
  }

  /** The window of a ring that carries the pages of the stream from m on starts at slot m % size. */
  lemma CarriedJoins(window: seq<Entry>, pages: seq<nat>, m: nat, size: nat)
    requires 0 < size && |window| <= size && Carries(window, pages, m) && StreamJoins(pages, 0, size)
    ensures RingJoins(PagesIn(window), SlotOf(m, size), size)
  {
    var w, at := PagesIn(window), SlotOf(m, size);
    forall i, j | 0 <= i && j == i + 1 < |w| && at + j != size && Joins(w[i], w[j])
      ensures w[j] == w[i] + 1
    {
      AroundRing(m, j, size);
      assert w[i] == pages[m + i] && w[j] == pages[m + j];
      assert SlotOf(0 + (m + j), size) != 0;
    }
  }

  /** A slot less than one turn behind slot m % size is slot 0 only right behind the last one. */
  lemma AroundRing(m: nat, j: nat, size: nat)
    requires 0 < j < size && SlotOf(m, size) + j != size
    ensures SlotOf(m + j, size) != 0
  {
    var at := SlotOf(m, size);
    if at + j < size {
      SlotPlus(m, j, size);
    } else {
      SlotPlus(m, size - at, size);
      SlotPlus(m + (size - at), at + j - size, size);
    }
  }

  /** Two neighbours that make a false join in one ring are misplaced by a flush that takes both. */
  lemma PairMisplaced(pages: seq<nat>, i: nat, size: nat) returns (window: seq<Entry>)
    requires size > 0 && i + 1 < |pages| && SlotOf(i + 1, size) != 0
    requires Joins(pages[i], pages[i + 1]) && pages[i + 1] != pages[i] + 1
    ensures |window| <= size && Carries(window, pages, i) && !Faithful(window, size - SlotOf(i, size))
  {
    var room := size - SlotOf(i, size);
    window := [Ready(pages[i], []), Ready(pages[i + 1], [])];
    SlotPlus(i, 1, size);
    assert BatchLen(window, room) == 2 by {
      assert BatchLen(window[1..], room - 1) == 1;
    }
    assert window[1].page != window[0].page + 1;
  }

  /** The exact condition for the flushes of one ring, over the stream of its pages. */
  lemma StreamFaithfulIff(pages: seq<nat>, size: nat)
    requires size > 0
    ensures StreamJoins(pages, 0, size) <==> RingFaithful(pages, size)
  {
    if StreamJoins(pages, 0, size) {
      forall window: seq<Entry>, m: nat | |window| <= size && Carries(window, pages, m)
        ensures Faithful(window, size - SlotOf(m, size))
      {
        CarriedJoins(window, pages, m, size);
        RealWindow(window, SlotOf(m, size), size);
      }
    } else {
      var i, j :| 0 <= i && j == i + 1 < |pages| && SlotOf(0 + j, size) != 0 && Joins(pages[i], pages[j])
        && pages[j] != pages[i] + 1;
      var window := PairMisplaced(pages, i, size);
    }
  }

  /** Whatever the ring holds of the stream and however far it is filled, its flush writes each page to its
      own number. */
  ghost predicate RingFaithful(pages: seq<nat>, size: nat)
    requires size > 0
  {
    forall window: seq<Entry>, m: nat | |window| <= size && Carries(window, pages, m) ::
      Faithful(window, size - SlotOf(m, size))
  }

  /** No grant makes a false join with the one before it, but where its first page goes to slot 0; the
      first page of the groups is number `at` of the stream. */
  ghost predicate SeamsFine(groups: seq<Group>, at: nat, size: nat)
    requires WellFormedQueue(groups) && size > 0
    decreases |groups|
  {
    |groups| <= 1 ||
    (assert NonEmpty(groups[0]);
     var next := at + |GroupPages(groups[0])|;
     (SlotOf(next, size) == 0 || !FalseJoin(groups[0], groups[1])) && SeamsFine(groups[1..], next, size))
  }

  lemma StreamConcat(a: seq<nat>, b: seq<nat>, at: nat, size: nat)
    requires a != [] && size > 0
    ensures StreamJoins(a + b, at, size) <==>
      && StreamJoins(a, at, size) && StreamJoins(b, at + |a|, size)
      && (b != [] && SlotOf(at + |a|, size) != 0 && Joins(a[|a| - 1], b[0]) ==> b[0] == a[|a| - 1] + 1)
  {
    var c := a + b;
    if StreamJoins(c, at, size) {
      StreamPrefix(a, b, at, size);
      StreamSuffix(a, b, at, size);
      if b != [] {
        assert c[|a| - 1] == a[|a| - 1] && c[|a|] == b[0];
      }
    }
    if StreamJoins(a, at, size) && StreamJoins(b, at + |a|, size)
      && (b != [] && SlotOf(at + |a|, size) != 0 && Joins(a[|a| - 1], b[0]) ==> b[0] == a[|a| - 1] + 1) {
      forall i, j | 0 <= i && j == i + 1 < |c| && SlotOf(at + j, size) != 0 && Joins(c[i], c[j])
        ensures c[j] == c[i] + 1
      {
        if j > |a| {
          assert at + |a| + (j - |a|) == at + j;
          assert c[i] == b[i - |a|] && c[j] == b[j - |a|];
        }
      }
    }
  }

  lemma StreamPrefix(a: seq<nat>, b: seq<nat>, at: nat, size: nat)
    requires size > 0 && StreamJoins(a + b, at, size)
    ensures StreamJoins(a, at, size)
  {
    forall i, j | 0 <= i && j == i + 1 < |a| && SlotOf(at + j, size) != 0 && Joins(a[i], a[j])
      ensures a[j] == a[i] + 1
    {
      assert (a + b)[i] == a[i] && (a + b)[j] == a[j];
    }
  }

  lemma StreamSuffix(a: seq<nat>, b: seq<nat>, at: nat, size: nat)
    requires size > 0 && StreamJoins(a + b, at, size)
    ensures StreamJoins(b, at + |a|, size)
  {
    forall i, j | 0 <= i && j == i + 1 < |b| && SlotOf(at + |a| + j, size) != 0 && Joins(b[i], b[j])
      ensures b[j] == b[i] + 1
    {
      assert (a + b)[|a| + i] == b[i] && (a + b)[|a| + j] == b[j];
      assert at + (|a| + j) == at + |a| + j;
    }
  }

  lemma InsideStream(g: Group, at: nat, size: nat)
    requires NonEmpty(g) && size > 0
    ensures GroupPages(g) != [] && GroupPages(g)[|GroupPages(g)| - 1] == g.pageEnd && GroupPages(g)[0] == g.pageStart
    ensures StreamJoins(GroupPages(g), at, size)
  {
    LastOfGroup(g);
  }

  /** Page lists that end with group g and begin with group h meet at one seam. */
  lemma SeamBetween(a: seq<nat>, b: seq<nat>, at: nat, size: nat, g: Group, h: Group)
    requires size > 0 && a != [] && b != [] && a[|a| - 1] == g.pageEnd && b[0] == h.pageStart
    requires StreamJoins(a, at, size)
    ensures StreamJoins(a + b, at, size) <==>
      StreamJoins(b, at + |a|, size) && (SlotOf(at + |a|, size) != 0 ==> !FalseJoin(g, h))
  {
    StreamConcat(a, b, at, size);
  }

  lemma SeamStep(groups: seq<Group>, at: nat, size: nat)
    requires WellFormedQueue(groups) && size > 0 && |groups| > 1
    ensures NonEmpty(groups[0]) && WellFormedQueue(groups[1..])
    ensures var next := at + |GroupPages(groups[0])|;
      StreamJoins(Flatten(groups), at, size) <==>
        StreamJoins(Flatten(groups[1..]), next, size) && (SlotOf(next, size) != 0 ==> !FalseJoin(groups[0], groups[1]))
  {
    assert NonEmpty(groups[0]);
    var a, b := GroupPages(groups[0]), Flatten(groups[1..]);
    InsideStream(groups[0], at, size);
    FirstWaiting(groups[1..]);
    SeamBetween(a, b, at, size, groups[0], groups[1]);
    assert Flatten(groups) == a + b;
  }

  /** The seams of the groups are the only places where their pages can make a false join. */
  lemma {:induction false} SeamsJoin(groups: seq<Group>, at: nat, size: nat)
    requires WellFormedQueue(groups) && size > 0
    ensures SeamsFine(groups, at, size) <==> StreamJoins(Flatten(groups), at, size)
    decreases |groups|
  {
    if groups == [] {
    } else if |groups| == 1 {
      assert NonEmpty(groups[0]);
      InsideStream(groups[0], at, size);
      assert Flatten(groups) == GroupPages(groups[0]);
    } else {
      SeamStep(groups, at, size);
      SeamsJoin(groups[1..], at + |GroupPages(groups[0])|, size);
    }
  }

  /** The exact condition for correct flushes of one ring: over every stretch of the granted pages the ring
      may hold, a flush writes each page to its own number if and only if no grant makes a false join with
      the one before it, but where the ring wraps. */
  lemma FaithfulIff(groups: seq<Group>, size: nat)
    requires WellFormedQueue(groups) && size > 0
    ensures SeamsFine(groups, 0, size) <==> RingFaithful(Flatten(groups), size)
  {
    SeamsJoin(groups, 0, size);
    StreamFaithfulIff(Flatten(groups), size);
  }

  /** Without false joins every ring is fine, whatever its size and wherever it wraps. */
  lemma {:induction false} NoJoinSeamsFine(groups: seq<Group>, at: nat, size: nat)
    requires WellFormedQueue(groups) && size > 0 && NoFalseJoin(groups)
    ensures SeamsFine(groups, at, size)
    decreases |groups|
  {
    if |groups| <= 1 {
    } else {
      assert NonEmpty(groups[0]);
      FirstJoin(groups);
      NoJoinSeamsFine(groups[1..], at + |GroupPages(groups[0])|, size);
    }
  }

  /** Grants of whole 1024-page groups meet the condition. */
  lemma WholeGroupsAreSafe(groups: seq<Group>)
    requires forall g | g in groups :: g.pageStart % 1024 == 0 && g.pageEnd == g.pageStart + 1023
    ensures NoFalseJoin(groups)
  {
    forall i, j | 0 <= i && j == i + 1 < |groups|
      ensures !FalseJoin(groups[i], groups[j])
    {
      assert groups[i] in groups && groups[j] in groups;
    }
  }

  /** A window that is filled and joined throughout, and fits in front of the wrap, is one batch. */
  lemma WholeBatch(window: seq<Entry>, room: nat)
    requires |window| <= room && forall i | 0 <= i < |window| :: window[i].Ready?
    requires forall i, j | 0 <= i && j == i + 1 < |window| :: Joins(window[i].page, window[j].page)
    ensures BatchLen(window, room) == |window|
  {
    BatchJoins(window, room);
    var n := BatchLen(window, room);
    if 0 < n < |window| {
      assert Joins(window[n - 1].page, window[n].page);
    }
  }

  /** Pages 0 to 31 and then page 1056, all filled. */
  ghost function MisplacingWindow(a: seq<PageData>, b: PageData): (w: seq<Entry>)
    requires |a| == 32
    ensures |w| == 33
  {
    seq(32, i requires 0 <= i < 32 => Ready(i, a[i])) + [Ready(1056, b)]
  }

  /** Smaller grants need not: a ring of 64 slots gets the 32-page groups 0..31 and 1056..1087.  The store
      of the 33rd page fills slot 32 and flushes all 33 slots as one batch, which writes the data of page
      1056 to page 32. */
  lemma SmallGrantsMisplace(a: seq<PageData>, b: PageData)
    requires |a| == 32
    ensures var groups := [Group(0, 31), Group(1056, 1087)];
      WellFormedQueue(groups) && Carries(MisplacingWindow(a, b), Flatten(groups), 0) && !SeamsFine(groups, 0, 64)
    ensures SlotOf(0, 64) == 0 && Past(0, 32, 64) == 32 && FlushSlot(32)
    ensures BatchLen(MisplacingWindow(a, b), 64) == 33
    ensures var mem := Flushed(map[], MisplacingWindow(a, b), 64);
      32 in mem && mem[32] == b && 1056 !in mem
  {
    var window := MisplacingWindow(a, b);
    WholeBatch(window, 64);
    assert window[32] == Ready(1056, b) && window[0].page == 0;
    WriteRunAt(map[], 0, BatchData(window, 33), 32);
    WriteRunAt(map[], 0, BatchData(window, 33), 1056);
    MisplacingGrants(a, b);
  }

  lemma MisplacingGrants(a: seq<PageData>, b: PageData)
    requires |a| == 32
    ensures var groups := [Group(0, 31), Group(1056, 1087)];
      WellFormedQueue(groups) && Carries(MisplacingWindow(a, b), Flatten(groups), 0) && !SeamsFine(groups, 0, 64)
  {
    var g, h := Group(0, 31), Group(1056, 1087);
    LastOfGroup(g);
    LastOfGroup(h);
    TwoGroups(g, h);
    MisplacedCarries(a, b, GroupPages(g), GroupPages(h));
    SeamInside([g, h], 64);
  }

  lemma MisplacedCarries(a: seq<PageData>, b: PageData, first: seq<nat>, second: seq<nat>)
    requires |a| == |first| == 32 && (forall i | 0 <= i < 32 :: first[i] == i)
    requires second != [] && second[0] == 1056
    ensures Carries(MisplacingWindow(a, b), first + second, 0)
  {}

  lemma TwoGroups(g: Group, h: Group)
    requires NonEmpty(g) && NonEmpty(h)
    ensures WellFormedQueue([g, h]) && Flatten([g, h]) == GroupPages(g) + GroupPages(h)
  {
    assert [g, h][1..] == [h] && [h][1..] == [];
    assert Flatten([h]) == GroupPages(h) + Flatten([]);
  }

  /** A false join after the first 32 pages is inside a ring of 64 slots. */
  lemma SeamInside(groups: seq<Group>, size: nat)
    requires WellFormedQueue(groups) && |groups| == 2 && NonEmpty(groups[0]) && |GroupPages(groups[0])| == 32
    requires size == 64 && FalseJoin(groups[0], groups[1])
    ensures !SeamsFine(groups, 0, size)
  {
    SlotPlus(0, 32, size);
  }
}

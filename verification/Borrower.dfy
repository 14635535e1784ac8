/** The borrower's two operations on one memory node, put together from the group queue, the ring
    and the prefetch table: storing a page that is swapped out, and reading one back. */
module Borrower {
  import opened GroupQueue
  import opened WriteOutRing
  import opened ReadPath
  import Turns = RingTurns

  /** A ring window with the remote memory behind it. */
  datatype Outgoing = Outgoing(window: seq<Entry>, mem: map<nat, PageData>)

  ghost function AfterFlush(o: Outgoing, room: nat): Outgoing {
    Outgoing(o.window[BatchLen(o.window, room)..], Flushed(o.mem, o.window, room))
  }

  /** The ring after a page was stored in the given slot: every 32nd slot triggers a flush. */
  ghost function AfterFill(o: Outgoing, head: nat, size: nat, slot: nat, p: nat, data: PageData): Outgoing
    requires head < size
  {
    var filled := o.(window := o.window + [Ready(p, data)]);
    if FlushSlot(slot) then AfterFlush(filled, size - head) else filled
  }

  /** The flush that makes room for a store: of a full ring whose oldest page is filled. */
  ghost function AfterRoom(o: Outgoing, head: nat, size: nat): Outgoing
    requires head < size
  {
    if FullAndReady(o.window, size) then AfterFlush(o, size - head) else o
  }

  /** What that flush leaves in the ring. */
  ghost function LeftWindow(window: seq<Entry>, head: nat, size: nat): seq<Entry>
    requires head < size
  {
    if FullAndReady(window, size) then window[BatchLen(window, size - head)..] else window
  }

  /** The head after that flush. */
  ghost function HeadAfter(window: seq<Entry>, head: nat, size: nat): (h: nat)
    requires head < size
    ensures h < size
  {
    if FullAndReady(window, size) then Past(head, BatchLen(window, size - head), size) else head
  }

  /** What storing one page does to the ring and to remote memory. */
  ghost function AfterStore(o: Outgoing, head: nat, size: nat, p: nat, data: PageData): Outgoing
    requires head < size && |o.window| <= size
  {
    AfterFill(AfterRoom(o, head, size), HeadAfter(o.window, head, size), size, Past(head, |o.window|, size), p, data)
  }

  /** What a store into a ring with room means for the ring and remote memory: in slot 0 and in slots that are
      no multiple of 32 the page just joins the end, in the others the batch from the head is written and
      gone. */
  lemma StoreWithRoom(o: Outgoing, head: nat, size: nat, tail: nat, p: nat, data: PageData)
    requires head < size && tail < size && |o.window| < size && tail == Past(head, |o.window|, size)
    ensures var o' := AfterStore(o, head, size, p, data);
      && (tail == 0 || tail % 32 != 0 ==> o'.window == o.window + [Ready(p, data)] && o'.mem == o.mem)
      && (tail != 0 && tail % 32 == 0 ==>
            var w, room := o.window + [Ready(p, data)], size - head;
            o'.mem == Flushed(o.mem, w, room) && o'.window == w[BatchLen(w, room)..])
  {}

  /** What filling a slot means: in slot 0 and in slots that are no multiple of 32 the page just joins the end,
      in the others the batch from the head is written and gone. */
  lemma FillMeans(o: Outgoing, head: nat, size: nat, slot: nat, p: nat, data: PageData)
    requires head < size
    ensures var w, room := o.window + [Ready(p, data)], size - head;
      AfterFill(o, head, size, slot, p, data) ==
        if slot == 0 || slot % 32 != 0 then Outgoing(w, o.mem)
        else Outgoing(w[BatchLen(w, room)..], Flushed(o.mem, w, room))
  {}

  /** What a store into a full ring whose oldest page is filled means: the batch from the head is written and
      gone, and then the page is stored like any other. */
  lemma StoreWhenFull(o: Outgoing, head: nat, size: nat, p: nat, data: PageData)
    requires head < size == |o.window| && o.window[0].Ready?
    ensures var room := size - head;
      var k := BatchLen(o.window, room);
      && 0 < k
      && AfterStore(o, head, size, p, data) ==
           AfterFill(Outgoing(o.window[k..], Flushed(o.mem, o.window, room)), if k == room then 0 else head + k,
                     size, head, p, data)
  {
    BatchJoins(o.window, size - head);
  }

  /** The part of COMEX_move_to_Remote that asks the node for more pages. */
  method AskForPages(group: FreeGroup, threshold: int) returns (asked: bool)
    requires group.Valid()
    modifies group`backOff
    ensures group.Valid()
    ensures asked <==> group.totalPage <= threshold && old(group.backOff) <= 0
    ensures group.backOff == if asked then 10000
          else if group.totalPage <= threshold then old(group.backOff) - 1 else old(group.backOff)
  {
    asked := false;
    if group.totalPage <= threshold {
      if group.backOff <= 0 {
        group.backOff := 10000;
        asked := true;
      } else {
        group.backOff := group.backOff - 1;
      }
    }
  }

  /** Take a page, reserve the tail slot for it, void its prefetch entry and fill the slot. */
  method PutPage(group: FreeGroup, ring: Ring, table: PrefetchTable, n: nat, data: PageData)
    returns (slot: nat, pageNO: nat)
    requires group.Valid() && ring.Valid() && table.Valid()
    requires group.totalPage > 0 && ring.status[ring.tail] == -1
    modifies group`groups, group`totalPage, group`handed
    modifies ring`tail, ring`window, ring`reserved, ring.status, ring.pageNO, ring.buff, table.entries
    ensures group.Valid() && ring.Valid() && table.Valid() && slot == old(ring.tail)
    ensures old(group.groups) != [] && pageNO == old(group.groups)[0].pageStart
      && group.groups == Pop(old(group.groups))
    ensures ring.head == old(ring.head)
    ensures ring.window == old(ring.window) + [Ready(pageNO, data)] && ring.reserved == old(ring.reserved) + [pageNO]
    ensures table.entries[..] == Voided(old(table.entries[..]), n, pageNO)
    ensures group.handed == old(group.handed) + [pageNO]
  {
    pageNO := group.GetPage();
    slot := ring.Reserve(pageNO);
    table.VoidPreFetch(n, pageNO);
    ring.Fill(slot, pageNO, data);
  }

  /** Store a page in the tail slot, then flush if that is a 32nd slot. */
  method PutAndFlush(group: FreeGroup, ring: Ring, table: PrefetchTable, n: nat,
                     data: PageData, mem: map<nat, PageData>)
    returns (pageNO: nat, mem': map<nat, PageData>)
    requires group.Valid() && ring.Valid() && table.Valid()
    requires group.totalPage > 0 && ring.status[ring.tail] == -1
    modifies group`groups, group`totalPage, group`handed
    modifies ring`head, ring`tail, ring`window, ring`reserved, ring`written
    modifies ring.status, ring.pageNO, ring.buff, table.entries
    ensures group.Valid() && ring.Valid() && table.Valid()
    ensures old(group.groups) != [] && pageNO == old(group.groups)[0].pageStart
      && group.groups == Pop(old(group.groups))
    ensures ring.reserved == old(ring.reserved) + [pageNO] && group.handed == old(group.handed) + [pageNO]
    ensures table.entries[..] == Voided(old(table.entries[..]), n, pageNO)
    ensures Outgoing(ring.window, mem') ==
      AfterFill(Outgoing(old(ring.window), mem), old(ring.head), ring.size, old(ring.tail), pageNO, data)
    ensures old(ring.tail) == 0 || old(ring.tail) % 32 != 0 ==>
      ring.window == old(ring.window) + [Ready(pageNO, data)] && mem' == mem
    ensures old(ring.tail) != 0 && old(ring.tail) % 32 == 0 ==>
      var w := old(ring.window) + [Ready(pageNO, data)];
      var room := ring.size - old(ring.head);
      mem' == Flushed(mem, w, room) && ring.window == w[BatchLen(w, room)..]
  {
    pageNO, mem' := PutThenFlush(group, ring, table, n, data, mem);
    FillMeans(Outgoing(old(ring.window), mem), old(ring.head), ring.size, old(ring.tail), pageNO, data);
  }

  /** The steps of PutAndFlush. */
  method PutThenFlush(group: FreeGroup, ring: Ring, table: PrefetchTable, n: nat, data: PageData,
                      mem: map<nat, PageData>)
    returns (pageNO: nat, mem': map<nat, PageData>)
    requires group.Valid() && ring.Valid() && table.Valid()
    requires group.totalPage > 0 && ring.status[ring.tail] == -1
    modifies group`groups, group`totalPage, group`handed
    modifies ring`head, ring`tail, ring`window, ring`reserved, ring`written
    modifies ring.status, ring.pageNO, ring.buff, table.entries
    ensures group.Valid() && ring.Valid() && table.Valid()
    ensures old(group.groups) != [] && pageNO == old(group.groups)[0].pageStart
      && group.groups == Pop(old(group.groups))
    ensures ring.reserved == old(ring.reserved) + [pageNO] && group.handed == old(group.handed) + [pageNO]
    ensures table.entries[..] == Voided(old(table.entries[..]), n, pageNO)
    ensures Outgoing(ring.window, mem') ==
      AfterFill(Outgoing(old(ring.window), mem), old(ring.head), ring.size, old(ring.tail), pageNO, data)
  {
    var slot: nat;
    slot, pageNO := PutPage(group, ring, table, n, data);
    mem' := mem;
    if FlushSlot(slot) {
      var count: nat;
      mem', count := ring.Flush(mem);
    }
  }

  /** Flush a ring whose tail slot still holds a filled page. */
  method MakeRoom(ring: Ring, mem: map<nat, PageData>) returns (mem': map<nat, PageData>)
    requires ring.Valid()
    modifies ring`head, ring`window, ring`written, ring.status, ring.pageNO
    ensures ring.Valid() && ring.tail == Past(old(ring.head), |old(ring.window)|, ring.size)
    ensures ring.head == HeadAfter(old(ring.window), old(ring.head), ring.size)
    ensures Outgoing(ring.window, mem') == AfterRoom(Outgoing(old(ring.window), mem), old(ring.head), ring.size)
    ensures ring.status[ring.tail] == -1 <==>
      |old(ring.window)| < ring.size || FullAndReady(old(ring.window), ring.size)
  {
    ring.TailReady();
    ring.TailFree();
    mem' := mem;
    if ring.status[ring.tail] == 2 {
      var count: nat;
      mem', count := ring.Flush(mem);
    }
  }

  /** One turn of the loop of COMEX_move_to_Remote, on one node. */
  method StorePage(group: FreeGroup, ring: Ring, table: PrefetchTable, n: nat, data: PageData, mem: map<nat, PageData>)
    returns (stored: bool, pageNO: nat, mem': map<nat, PageData>)
    requires group.Valid() && ring.Valid() && table.Valid()
    modifies group`groups, group`totalPage, group`handed
    modifies ring`head, ring`tail, ring`window, ring`reserved, ring`written
    modifies ring.status, ring.pageNO, ring.buff, table.entries
    ensures group.Valid() && ring.Valid() && table.Valid()
    ensures stored <==>
      old(group.totalPage) > 0 && (|old(ring.window)| < ring.size || FullAndReady(old(ring.window), ring.size))
    ensures stored ==>
      && old(group.groups) != [] && pageNO == old(group.groups)[0].pageStart && group.groups == Pop(old(group.groups))
      && ring.reserved == old(ring.reserved) + [pageNO] && group.handed == old(group.handed) + [pageNO]
      && table.entries[..] == Voided(old(table.entries[..]), n, pageNO)
      && Outgoing(ring.window, mem') ==
          AfterStore(Outgoing(old(ring.window), mem), old(ring.head), ring.size, pageNO, data)
    // a ring with room, and no flush slot: the page just joins the end
    ensures stored && |old(ring.window)| < ring.size && (old(ring.tail) == 0 || old(ring.tail) % 32 != 0) ==>
      ring.window == old(ring.window) + [Ready(pageNO, data)] && mem' == mem
    // a ring with room, and a flush slot: the batch from the head is written and gone
    ensures stored && |old(ring.window)| < ring.size && old(ring.tail) != 0 && old(ring.tail) % 32 == 0 ==>
      var w := old(ring.window) + [Ready(pageNO, data)];
      var room := ring.size - old(ring.head);
      mem' == Flushed(mem, w, room) && ring.window == w[BatchLen(w, room)..]
    ensures !stored ==>
      && group.groups == old(group.groups) && group.handed == old(group.handed)
      && table.entries[..] == old(table.entries[..]) && ring.reserved == old(ring.reserved)
      && Outgoing(ring.window, mem') == AfterRoom(Outgoing(old(ring.window), mem), old(ring.head), ring.size)
  {
    stored, pageNO, mem' := StoreTurn(group, ring, table, n, data, mem);
    if stored && |old(ring.window)| < ring.size {
      StoreWithRoom(Outgoing(old(ring.window), mem), old(ring.head), ring.size, old(ring.tail), pageNO, data);
    }
  }

  /** The steps of StorePage. */
  method StoreTurn(group: FreeGroup, ring: Ring, table: PrefetchTable, n: nat, data: PageData, mem: map<nat, PageData>)
    returns (stored: bool, pageNO: nat, mem': map<nat, PageData>)
    requires group.Valid() && ring.Valid() && table.Valid()
    modifies group`groups, group`totalPage, group`handed
    modifies ring`head, ring`tail, ring`window, ring`reserved, ring`written
    modifies ring.status, ring.pageNO, ring.buff, table.entries
    ensures group.Valid() && ring.Valid() && table.Valid()
    ensures stored <==>
      old(group.totalPage) > 0 && (|old(ring.window)| < ring.size || FullAndReady(old(ring.window), ring.size))
    ensures stored ==>
      && old(group.groups) != [] && pageNO == old(group.groups)[0].pageStart && group.groups == Pop(old(group.groups))
      && ring.reserved == old(ring.reserved) + [pageNO] && group.handed == old(group.handed) + [pageNO]
      && table.entries[..] == Voided(old(table.entries[..]), n, pageNO)
      && Outgoing(ring.window, mem') ==
          AfterStore(Outgoing(old(ring.window), mem), old(ring.head), ring.size, pageNO, data)
    ensures !stored ==>
      && group.groups == old(group.groups) && group.handed == old(group.handed)
      && table.entries[..] == old(table.entries[..]) && ring.reserved == old(ring.reserved)
      && Outgoing(ring.window, mem') == AfterRoom(Outgoing(old(ring.window), mem), old(ring.head), ring.size)
  {
    mem' := MakeRoom(ring, mem);
    pageNO := 0;
    if group.totalPage > 0 && ring.status[ring.tail] == -1 {
      pageNO, mem' := PutAndFlush(group, ring, table, n, data, mem');
      return true, pageNO, mem';
    }
    stored := false;
  }

  /** The lookup of read_swap_cache_async for a page of a memory node: ring, prefetch table, remote
      memory. */
  method ReadPage(ring: Ring, table: PrefetchTable, n: nat, p: nat, mem: map<nat, PageData>) returns (data: PageData)
    requires ring.Valid() && table.Valid()
    modifies table.entries
    ensures ring.Valid() && table.Valid()
    ensures if Pending(ring.window, p) then Ready(p, data) in ring.window
            else if Hit(old(table.entries[..]), n, p) then data == old(table.entries[..])[p % table.entries.Length].data
            else data == Get(mem, p)
    ensures table.entries[..] ==
      if Pending(ring.window, p) || Hit(old(table.entries[..]), n, p) then old(table.entries[..])
      else Fetched(old(table.entries[..]), mem, n, p)
  {
    var hit: bool;
    hit, data := ring.ReadFromBuffer(p);
    if !hit {
      hit, data := table.ReadFromPreFetch(n, p);
      if !hit {
        data := table.ReadFromRemote(n, p, mem);
      }
    }
  }

  /** What ReadPage promises is a read of the read-path model. */
  lemma ReadPageReads(s: Store, n: nat, p: nat, data: PageData)
    requires Shape(s) && n < |s.rings|
    requires if Pending(s.rings[n], p) then Ready(p, data) in s.rings[n]
             else if Hit(s.table, n, p) then data == s.table[p % |s.table|].data
             else data == Get(s.mem[n], p)
    ensures Reads(s, n, p, data)
  {}

  // ----- from grants to faithful flushes -----

  /** A ring that carries pages of grants whose seams are fine makes no false join in front of its wrap. */
  lemma GrantedJoins(window: seq<Entry>, groups: seq<Group>, m: nat, head: nat, size: nat)
    requires WellFormedQueue(groups) && size > 0 && SeamsFine(groups, 0, size)
    requires |window| <= size && Carries(window, Flatten(groups), m) && head == SlotOf(m, size)
    ensures RingJoins(PagesIn(window), head, size)
  {
    SeamsJoin(groups, 0, size);
    CarriedJoins(window, Flatten(groups), m, size);
  }

  /** ... and is flushed faithfully. */
  lemma GrantedFlush(window: seq<Entry>, groups: seq<Group>, m: nat, head: nat, size: nat)
    requires WellFormedQueue(groups) && size > 0 && SeamsFine(groups, 0, size)
    requires |window| <= size && Carries(window, Flatten(groups), m) && head == SlotOf(m, size)
    ensures Faithful(window, size - head)
  {
    GrantedJoins(window, groups, m, head, size);
    RealWindow(window, head, size);
  }

  /** When every page handed out was put into the ring, the ring carries granted pages in the order in
      which they arrived. */
  lemma RingCarries(group: FreeGroup, ring: Ring)
    requires group.Valid() && ring.Valid() && ring.reserved == group.handed
    ensures Carries(ring.window, Flatten(group.arrived), |ring.written|)
    ensures 0 < ring.size && |ring.window| <= ring.size && ring.head == SlotOf(|ring.written|, ring.size)
  {
    CarriesPart(ring.written, ring.window, Flatten(group.groups));
  }

  lemma CarriesPart(done: seq<nat>, window: seq<Entry>, rest: seq<nat>)
    ensures Carries(window, done + PagesIn(window) + rest, |done|)
  {}

  /** If moreover their seams are fine, its flush is faithful. */
  lemma GrantsMakeFaithful(group: FreeGroup, ring: Ring)
    requires group.Valid() && ring.Valid() && ring.reserved == group.handed && SeamsFine(group.arrived, 0, ring.size)
    ensures Faithful(ring.window, ring.size - ring.head)
  {
    RingCarries(group, ring);
    GrantedFlush(ring.window, group.arrived, |ring.written|, ring.head, ring.size);
  }

  // ----- the operations as steps of the read-path model -----

  /** The flush before a store, if the ring is full and its oldest page filled. */
  ghost function Roomed(s: Store, n: nat, head: nat, size: nat): (s': Store)
    requires Shape(s) && n < |s.rings| && head < size
    ensures Shape(s') && |s'.rings| == |s.rings|
  {
    if FullAndReady(s.rings[n], size) then After(s, Step.Flush(n, size - head)) else s
  }

  /** Page p of node n may be stored: it is not held yet and not in the ring. */
  ghost predicate Takable(s: Store, n: nat, p: nat) {
    Shape(s) && n < |s.rings| && (n, p) !in s.latest && !InRing(s.rings[n], p)
  }

  /** The slot of page p is reserved and filled. */
  ghost function Put(s: Store, n: nat, p: nat, data: PageData): (s': Store)
    requires Takable(s, n, p)
    ensures Shape(s') && |s'.rings| == |s.rings|
  {
    After(After(s, Step.Reserve(n, p)), Step.Fill(n, |s.rings[n]|, data))
  }

  /** The store with the ring and the memory of node n replaced. */
  ghost function With(s: Store, n: nat, o: Outgoing): Store
    requires n < |s.rings| == |s.mem|
  {
    s.(rings := s.rings[n := o.window], mem := s.mem[n := o.mem])
  }

  ghost function View(s: Store, n: nat): Outgoing
    requires n < |s.rings| == |s.mem|
  {
    Outgoing(s.rings[n], s.mem[n])
  }

  lemma WithTwice(s: Store, n: nat, a: Outgoing, b: Outgoing)
    requires n < |s.rings| == |s.mem|
    ensures With(With(s, n, a), n, b) == With(s, n, b) && View(With(s, n, a), n) == a
    ensures With(s, n, View(s, n)) == s
  {}

  lemma PutIs(s: Store, n: nat, p: nat, data: PageData)
    requires Takable(s, n, p)
    ensures Put(s, n, p, data) == With(s, n, Outgoing(s.rings[n] + [Ready(p, data)], s.mem[n]))
                                  .(table := Voided(s.table, n, p), latest := s.latest[(n, p) := data])
  {
    var window := s.rings[n];
    assert (window + [Filling(p)])[|window| := Ready(p, data)] == window + [Ready(p, data)];
  }

  lemma RoomedTakable(s: Store, n: nat, p: nat, head: nat, size: nat)
    requires Takable(s, n, p) && head < size
    ensures Takable(Roomed(s, n, head, size), n, p)
  {
    CutNotInRing(s.rings[n], BatchLen(s.rings[n], size - head), p);
  }

  lemma RoomedIs(s: Store, n: nat, head: nat, size: nat)
    requires Shape(s) && n < |s.rings| && head < size
    ensures Roomed(s, n, head, size) ==
      With(s, n, AfterRoom(View(s, n), head, size))
  {
    WithTwice(s, n, View(s, n), View(s, n));
  }

  lemma RoomedWindow(s: Store, n: nat, head: nat, size: nat)
    requires Shape(s) && n < |s.rings| && head < size
    ensures Roomed(s, n, head, size).rings[n] == LeftWindow(s.rings[n], head, size)
  {}

  /** The flush after a store, of every 32nd slot. */
  ghost function Drained(s: Store, n: nat, room: nat, slot: nat): (s': Store)
    requires Shape(s) && n < |s.rings|
    ensures Shape(s') && |s'.rings| == |s.rings|
  {
    if FlushSlot(slot) then After(s, Step.Flush(n, room)) else s
  }

  lemma DrainedIs(s: Store, n: nat, room: nat, slot: nat)
    requires Shape(s) && n < |s.rings|
    ensures Drained(s, n, room, slot) ==
      With(s, n, if FlushSlot(slot) then AfterFlush(View(s, n), room) else View(s, n))
  {
    WithTwice(s, n, View(s, n), View(s, n));
  }

  /** One store, step by step. */
  ghost function Stored(s: Store, n: nat, p: nat, data: PageData, head: nat, size: nat): Store
    requires Takable(s, n, p) && head < size && |s.rings[n]| <= size
  {
    RoomedTakable(s, n, p, head, size);
    var s1 := Roomed(s, n, head, size);
    Drained(Put(s1, n, p, data), n, size - HeadAfter(s.rings[n], head, size), Past(head, |s.rings[n]|, size))
  }

  /** StorePage, whose contract speaks of AfterStore and Voided, is a run of model steps that makes
      `data` the latest data of the page and touches no other node. */
  lemma StoreRefines(s: Store, n: nat, p: nat, data: PageData, head: nat, size: nat)
    requires Takable(s, n, p) && head < size && |s.rings[n]| <= size
    ensures Stored(s, n, p, data, head, size) ==
      With(s, n, AfterStore(View(s, n), head, size, p, data))
        .(table := Voided(s.table, n, p), latest := s.latest[(n, p) := data])
  {
    RoomedTakable(s, n, p, head, size);
    RoomedIs(s, n, head, size);
    var s1, o := Roomed(s, n, head, size), View(s, n);
    var head1, slot := HeadAfter(o.window, head, size), Past(head, |o.window|, size);
    PutAndDrain(s1, n, p, data, head1, size, slot);
    WithTwice(s, n, AfterRoom(o, head, size), AfterStore(o, head, size, p, data));
  }

  lemma PutAndDrain(s: Store, n: nat, p: nat, data: PageData, head: nat, size: nat, slot: nat)
    requires Takable(s, n, p) && head < size
    ensures Drained(Put(s, n, p, data), n, size - head, slot) ==
      With(s, n, AfterFill(View(s, n), head, size, slot, p, data))
        .(table := Voided(s.table, n, p), latest := s.latest[(n, p) := data])
  {
    PutIs(s, n, p, data);
    DrainedIs(Put(s, n, p, data), n, size - head, slot);
  }

  lemma RoomedCoherent(s: Store, n: nat, head: nat, size: nat, s1: Store)
    requires Coherent(s) && n < |s.rings| && head < size && Faithful(s.rings[n], size - head)
    requires s1 == Roomed(s, n, head, size)
    ensures Coherent(s1)
  {
    if FullAndReady(s.rings[n], size) {
      assert s1 == After(s, Step.Flush(n, size - head));
      FlushedCoherent(s, n, size - head, s1);
    } else {
      assert s1 == s;
    }
  }

  lemma FlushedCoherent(s: Store, n: nat, room: nat, s1: Store)
    requires Coherent(s) && n < |s.rings| && Faithful(s.rings[n], room) && s1 == After(s, Step.Flush(n, room))
    ensures Coherent(s1)
  {
    FlushKeeps(s, n, room);
  }

  lemma PutCoherent(s: Store, n: nat, p: nat, data: PageData)
    requires Coherent(s) && Takable(s, n, p)
    ensures Coherent(Put(s, n, p, data))
  {
    ReserveKeeps(s, n, p);
    FillKeeps(After(s, Step.Reserve(n, p)), n, |s.rings[n]|, data);
  }

  lemma DrainedCoherent(s: Store, n: nat, room: nat, slot: nat)
    requires Coherent(s) && n < |s.rings| && Faithful(s.rings[n], room)
    ensures Coherent(Drained(s, n, room, slot))
  {
    if FlushSlot(slot) {
      FlushKeeps(s, n, room);
    }
  }

  lemma PutAndDrainCoherent(s: Store, n: nat, p: nat, data: PageData, room: nat, slot: nat, s': Store)
    requires Coherent(s) && Takable(s, n, p) && Faithful(s.rings[n] + [Ready(p, data)], room)
    requires s' == Drained(Put(s, n, p, data), n, room, slot)
    ensures Coherent(s')
  {
    PutIs(s, n, p, data);
    PutCoherent(s, n, p, data);
    DrainedCoherent(Put(s, n, p, data), n, room, slot);
  }

  /** Storing a page keeps the store coherent when its two flushes are faithful. */
  lemma StoreKeeps(s: Store, n: nat, p: nat, data: PageData, head: nat, size: nat)
    requires Coherent(s) && Takable(s, n, p) && head < size && |s.rings[n]| <= size
    requires Faithful(s.rings[n], size - head)
    requires Faithful(LeftWindow(s.rings[n], head, size) + [Ready(p, data)], size - HeadAfter(s.rings[n], head, size))
    ensures Coherent(Stored(s, n, p, data, head, size))
  {
    RoomedCoherent(s, n, head, size, Roomed(s, n, head, size));
    RestCoherent(s, Roomed(s, n, head, size), n, p, data, head, size);
  }

  /** A store after its first flush. */
  lemma RestCoherent(s: Store, s1: Store, n: nat, p: nat, data: PageData, head: nat, size: nat)
    requires Takable(s, n, p) && head < size && |s.rings[n]| <= size && s1 == Roomed(s, n, head, size) && Coherent(s1)
    requires Faithful(LeftWindow(s.rings[n], head, size) + [Ready(p, data)], size - HeadAfter(s.rings[n], head, size))
    ensures Coherent(Stored(s, n, p, data, head, size))
  {
    StoredIs(s, n, p, data, head, size);
    RoomedWindow(s, n, head, size);
    PutAndDrainCoherent(s1, n, p, data, size - HeadAfter(s.rings[n], head, size), Past(head, |s.rings[n]|, size),
                        Stored(s, n, p, data, head, size));
  }

  lemma StoredIs(s: Store, n: nat, p: nat, data: PageData, head: nat, size: nat)
    requires Takable(s, n, p) && head < size && |s.rings[n]| <= size
    ensures Takable(Roomed(s, n, head, size), n, p)
    ensures Stored(s, n, p, data, head, size) ==
      Drained(Put(Roomed(s, n, head, size), n, p, data), n, size - HeadAfter(s.rings[n], head, size),
              Past(head, |s.rings[n]|, size))
  {
    RoomedTakable(s, n, p, head, size);
  }

  /** What is read from a page after it was stored is what was stored. */
  lemma StoreThenRead(s: Store, n: nat, p: nat, data: PageData, head: nat, size: nat, got: PageData)
    requires Coherent(s) && Takable(s, n, p) && head < size && |s.rings[n]| <= size
    requires Faithful(s.rings[n], size - head)
    requires Faithful(LeftWindow(s.rings[n], head, size) + [Ready(p, data)], size - HeadAfter(s.rings[n], head, size))
    requires Reads(Stored(s, n, p, data, head, size), n, p, got)
    ensures got == data
  {
    StoreKeeps(s, n, p, data, head, size);
    StoreRefines(s, n, p, data, head, size);
    assert (n, p) in Stored(s, n, p, data, head, size).latest;
    ReadsLatest(Stored(s, n, p, data, head, size), n, p, got);
  }

  /** Cutting a batch off the front leaves a window that carries the later pages. */
  lemma CutCarries(window: seq<Entry>, e: Entry, k: nat, pages: seq<nat>, m: nat)
    requires k <= |window| && Carries(window + [e], pages, m)
    ensures Carries(window, pages, m) && Carries(window[k..] + [e], pages, m + k)
  {
    var longer, cut := window + [e], window[k..] + [e];
    assert forall i | 0 <= i < |window| :: window[i] == longer[i];
    assert forall i | 0 <= i < |cut| :: cut[i] == longer[k + i];
  }

  /** The ring has room for one more page, or gets it from the flush in front of a store. */
  ghost predicate HasRoom(window: seq<Entry>, size: nat) {
    |window| < size || FullAndReady(window, size)
  }

  /** The flushes of a store are faithful when the ring carries pages of grants whose seams are fine, and the
      page stored is the next of them. */
  lemma GrantedStore(window: seq<Entry>, e: Entry, head: nat, size: nat, groups: seq<Group>, m: nat)
    requires size > 0 && head == SlotOf(m, size) && HasRoom(window, size)
    requires WellFormedQueue(groups) && SeamsFine(groups, 0, size) && Carries(window + [e], Flatten(groups), m)
    ensures Faithful(window, size - head)
    ensures Faithful(LeftWindow(window, head, size) + [e], size - HeadAfter(window, head, size))
  {
    var k := LeftCarries(window, e, head, size, Flatten(groups), m);
    GrantedFlush(window, groups, m, head, size);
    var left, head1 := LeftWindow(window, head, size) + [e], HeadAfter(window, head, size);
    GrantedFlush(left, groups, m + k, head1, size);
  }

  /** What the ring carries when the page is stored. */
  lemma LeftCarries(window: seq<Entry>, e: Entry, head: nat, size: nat, pages: seq<nat>, m: nat) returns (k: nat)
    requires size > 0 && head == SlotOf(m, size) && HasRoom(window, size) && Carries(window + [e], pages, m)
    ensures Carries(window, pages, m) && Carries(LeftWindow(window, head, size) + [e], pages, m + k)
    ensures |LeftWindow(window, head, size) + [e]| <= size && HeadAfter(window, head, size) == SlotOf(m + k, size)
  {
    k := LeftSize(window, head, size);
    CutCarries(window, e, k, pages, m);
    SlotPlus(m, k, size);
  }

  lemma LeftSize(window: seq<Entry>, head: nat, size: nat) returns (k: nat)
    requires head < size && HasRoom(window, size)
    ensures k <= |window| < size + k && head + k <= size
    ensures LeftWindow(window, head, size) == window[k..] && HeadAfter(window, head, size) == Past(head, k, size)
  {
    k := if FullAndReady(window, size) then BatchLen(window, size - head) else 0;
    BatchJoins(window, size - head);
  }

  /** On grants whose seams are fine, such as whole 1024-page groups, a store keeps the store coherent and a
      read after it returns what was stored. */
  lemma GrantedStoreThenRead(s: Store, n: nat, p: nat, data: PageData, head: nat, size: nat, groups: seq<Group>, m: nat,
                             got: PageData)
    requires Coherent(s) && Takable(s, n, p) && size > 0 && head == SlotOf(m, size) && HasRoom(s.rings[n], size)
    requires WellFormedQueue(groups) && SeamsFine(groups, 0, size)
    requires Carries(s.rings[n] + [Ready(p, data)], Flatten(groups), m)
    ensures Coherent(Stored(s, n, p, data, head, size))
    ensures Reads(Stored(s, n, p, data, head, size), n, p, got) ==> got == data
  {
    GrantedStore(s.rings[n], Ready(p, data), head, size, groups, m);
    StoreKeeps(s, n, p, data, head, size);
    if Reads(Stored(s, n, p, data, head, size), n, p, got) {
      StoreThenRead(s, n, p, data, head, size, got);
    }
  }

  // ----- a store as turns of the ring -----

  /** The turns of one store. */
  ghost function StoreSteps(s: Store, n: nat, p: nat, data: PageData, head: nat, size: nat): seq<Step>
    requires Takable(s, n, p) && head < size
  {
    (if FullAndReady(s.rings[n], size) then [Step.Flush(n, size - head)] else [])
    + [Step.Reserve(n, p), Step.Fill(n, |LeftWindow(s.rings[n], head, size)|, data)]
  }

  /** The last two: the page is put behind a ring with room. */
  lemma PutIsTurns(s: Store, n: nat, p: nat, data: PageData, head: nat, size: nat, slot: nat)
    requires Takable(s, n, p) && head < size && |s.rings[n]| < size && slot == Past(head, |s.rings[n]|, size)
    requires Turns.NewJoin(s.rings[n], p, head, size)
    ensures Turns.Drains(s, n, head, size, [Step.Reserve(n, p), Step.Fill(n, |s.rings[n]|, data)],
                         Drained(Put(s, n, p, data), n, size - head, slot))
  {
    var fill := Step.Fill(n, |s.rings[n]|, data);
    var s1, s2 := After(s, Step.Reserve(n, p)), Drained(Put(s, n, p, data), n, size - head, slot);
    assert Turns.Turn(s1, n, head, size, fill).store == s2;
    var t := Turns.Turn(s1, n, head, size, fill);
    assert Turns.Drains(t.store, n, t.head, size, [], s2);
    Turns.DrainsFirst(s1, n, head, size, fill, [], s2);
    assert [fill] + [] == [fill];
    Turns.DrainsFirst(s, n, head, size, Step.Reserve(n, p), [fill], s2);
    assert [Step.Reserve(n, p)] + [fill] == [Step.Reserve(n, p), fill];
  }

  /** The page goes to the slot behind the last one, whether the ring was flushed first or not. */
  lemma SlotStays(window: seq<Entry>, head: nat, size: nat)
    requires head < size && HasRoom(window, size)
    ensures |LeftWindow(window, head, size)| < size
    ensures Past(HeadAfter(window, head, size), |LeftWindow(window, head, size)|, size) == Past(head, |window|, size)
  {
    var k := LeftSize(window, head, size);
  }

  /** The flush that makes room, and then the rest. */
  lemma FlushFirst(s: Store, n: nat, head: nat, size: nat, rest: seq<Step>, s': Store)
    requires Shape(s) && n < |s.rings| && head < size && FullAndReady(s.rings[n], size)
    requires Turns.Drains(Roomed(s, n, head, size), n, HeadAfter(s.rings[n], head, size), size, rest, s')
    ensures Turns.Drains(s, n, head, size, [Step.Flush(n, size - head)] + rest, s')
  {
    Turns.DrainsFirst(s, n, head, size, Step.Flush(n, size - head), rest, s');
  }

  /** The store behind the flush that makes room. */
  lemma RestIsTurns(s: Store, n: nat, p: nat, data: PageData, head: nat, size: nat)
    requires Takable(s, n, p) && head < size && HasRoom(s.rings[n], size)
    requires Turns.NewJoin(LeftWindow(s.rings[n], head, size), p, HeadAfter(s.rings[n], head, size), size)
    ensures Shape(Roomed(s, n, head, size)) && n < |Roomed(s, n, head, size).rings|
    ensures Turns.Drains(Roomed(s, n, head, size), n, HeadAfter(s.rings[n], head, size), size,
                         [Step.Reserve(n, p), Step.Fill(n, |LeftWindow(s.rings[n], head, size)|, data)],
                         Stored(s, n, p, data, head, size))
  {
    var window := s.rings[n];
    StoredIs(s, n, p, data, head, size);
    RoomedWindow(s, n, head, size);
    SlotStays(window, head, size);
    PutIsTurns(Roomed(s, n, head, size), n, p, data, HeadAfter(window, head, size), size, Past(head, |window|, size));
  }

  /** A store is a run of ring turns, so the exact conditions for fetches and releases, which quantify over
      all such runs, cover every sequence of stores. */
  lemma StoreIsTurns(s: Store, n: nat, p: nat, data: PageData, head: nat, size: nat)
    requires Takable(s, n, p) && head < size && HasRoom(s.rings[n], size)
    requires Turns.NewJoin(LeftWindow(s.rings[n], head, size), p, HeadAfter(s.rings[n], head, size), size)
    ensures |s.rings[n]| <= size
    ensures Turns.Drains(s, n, head, size, StoreSteps(s, n, p, data, head, size), Stored(s, n, p, data, head, size))
  {
    RestIsTurns(s, n, p, data, head, size);
    var rest := [Step.Reserve(n, p), Step.Fill(n, |LeftWindow(s.rings[n], head, size)|, data)];
    if FullAndReady(s.rings[n], size) {
      FlushFirst(s, n, head, size, rest, Stored(s, n, p, data, head, size));
    } else {
      assert [] + rest == rest;
    }
  }
}

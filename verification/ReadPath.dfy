/** The read path of a borrower: the write-out ring first, then the prefetch table, then remote
    memory. */
module ReadPath {
  import opened Bits
  import opened Common
  import opened WriteOutRing

  const PREF_BITS: nat := 4
  const PREF_SIZE: nat := 16

  /** buff_desc_t of the prefetch table, with the page-sized buffer it describes. */
  datatype Line = Line(status: int, nodeID: int, pageNO: int, data: PageData)

  function Get(mem: map<nat, PageData>, p: nat): PageData {
    if p in mem then mem[p] else []
  }

  /** x & PreF_MASK */
  function Floor(x: nat): nat {
    BitAndNot(x, PREF_SIZE - 1)
  }

  lemma PrefSize()
    ensures Pow2(PREF_BITS) == PREF_SIZE
  {
    assert Pow2(3) == 8;
  }

  lemma FloorSplit(x: nat)
    ensures Floor(x) + LowBits(x, PREF_BITS) == x
  {
    PrefSize();
    AndNotMask(x, PREF_BITS);
  }

  lemma LineStart(x: nat, first: nat)
    requires first + x % 16 == x
    ensures first % 16 == 0
  {}

  lemma FloorIs(x: nat)
    ensures Floor(x) == x - x % 16 && Floor(x) <= x && Floor(x) % 16 == 0
  {
    PrefSize();
    FloorSplit(x);
    LowBitsIsMod(x, PREF_BITS);
    LineStart(x, Floor(x));
  }

  /** Every page of a fetched line lands at its own index pageNO % readIn. */
  lemma LineIndex(p: nat, readIn: nat, i: nat)
    requires readIn > 0 && readIn % 16 == 0 && i < PREF_SIZE
    ensures Floor(p % readIn) + PREF_SIZE <= readIn
    ensures (Floor(p) + i) % readIn == Floor(p % readIn) + i
  {
    var r := p % readIn;
    FloorIs(p);
    FloorIs(r);
    WholeLines(p, readIn);
    LineArithmetic(p, r, p - r, readIn);
    SameMultiple(p, readIn, Floor(p) + i, Floor(r) + i);
  }

  /** x is as far past a multiple of d as y, when p is as far past it as p % d. */
  lemma SameMultiple(p: nat, d: nat, x: nat, y: nat)
    requires y < d && x + p % d == p + y
    ensures x % d == y
  {
    var q := p / d;
    assert p == d * q + p % d;
    DivMod(x, d, q, y);
  }

  lemma WholeLines(p: nat, readIn: nat)
    requires readIn > 0 && readIn % 16 == 0
    ensures p % readIn <= p && (p - p % readIn) % 16 == 0
  {
    var q, r := DivSplit(p, readIn);
    SixteenTimes(readIn, q);
    Difference(p, r, readIn * q);
  }

  lemma DivSplit(p: nat, d: nat) returns (q: nat, r: nat)
    requires d > 0
    ensures r == p % d && p == d * q + r
  {
    q, r := p / d, p % d;
  }

  lemma Difference(p: nat, r: nat, whole: nat)
    requires p == whole + r && whole % 16 == 0
    ensures (p - r) % 16 == 0
  {}

  lemma LineArithmetic(p: nat, r: nat, whole: nat, readIn: nat)
    requires p == whole + r && whole % 16 == 0 && readIn % 16 == 0 && r < readIn
    ensures p - p % 16 == whole + (r - r % 16) && r - r % 16 + 16 <= readIn
  {}

  lemma SixteenTimes(readIn: nat, q: nat)
    requires readIn % 16 == 0
    ensures (readIn * q) % 16 == 0
  {
    var c := readIn / 16;
    assert readIn * q == 16 * (c * q);
  }

  /** No fetch is refused: for any page and any buffer sizes that are multiples of a line, do_read's
      misalignment test passes. */
  lemma FetchNeverRefused(p: nat, writeOut: nat, nodes: nat, readIn: nat)
    requires readIn > 0 && readIn % 16 == 0 && (writeOut * nodes) % 16 == 0
    ensures !FetchRefused(writeOut * nodes, readIn, RemoteShift(writeOut, nodes, readIn), p)
  {
    LineFits(writeOut * nodes, p % readIn, p, RemoteShift(writeOut, nodes, readIn));
  }

  lemma LineFits(base: nat, index: nat, p: nat, shift: nat)
    requires base % 16 == 0
    ensures !Refused(base + Floor(index), Floor(p), shift, PREF_SIZE)
  {
    FloorIs(index);
    FloorIs(p);
    LinesFit(base, Floor(index), Floor(p), shift);
  }

  lemma LinesFit(base: nat, local: nat, remote: nat, shift: nat)
    requires base % 16 == 0 && local % 16 == 0 && remote % 16 == 0
    ensures !Refused(base + local, remote, shift, PREF_SIZE)
  {
    LineInRegion(base + local);
    LineInRegion(remote);
    NotRefused(base + local, remote, shift, PREF_SIZE);
  }

  lemma LineInRegion(x: nat)
    requires x % 16 == 0
    ensures x % 1024 + PREF_SIZE <= 1024
  {}

  /** The fetch of page p is refused, when the read-in buffers start at local page `base`. */
  ghost predicate FetchRefused(base: nat, readIn: nat, shift: nat, p: nat)
    requires readIn > 0
  {
    Refused(base + Floor(p % readIn), Floor(p), shift, PREF_SIZE)
  }

  /** No line of the read-in buffers lies across the border of two regions. */
  predicate LinesInside(base: nat, readIn: nat) {
    base % 16 == 0 || base % 1024 + readIn <= 1024
  }

  /** Exact condition: no fetch of any page is refused if and only if the read-in buffers start at a multiple
      of a line, or all lie in one region. */
  lemma FetchRefusedIff(base: nat, readIn: nat, shift: nat)
    requires readIn > 0 && readIn % 16 == 0
    ensures (forall p: nat :: !FetchRefused(base, readIn, shift, p)) <==> LinesInside(base, readIn)
  {
    if base % 16 == 0 {
      forall p: nat
        ensures !FetchRefused(base, readIn, shift, p)
      {
        LineFits(base, p % readIn, p, shift);
      }
    } else if base % 1024 + readIn <= 1024 {
      forall p: nat
        ensures !FetchRefused(base, readIn, shift, p)
      {
        InOneRegion(base, readIn, shift, p);
      }
    } else {
      var first := BorderLine(base, readIn);
      WholeIndex(first, readIn);
      OverBorder(base + first, first, shift);
      assert FetchRefused(base, readIn, shift, first);
    }
  }

  lemma InOneRegion(base: nat, readIn: nat, shift: nat, p: nat)
    requires readIn > 0 && readIn % 16 == 0 && base % 1024 + readIn <= 1024
    ensures !FetchRefused(base, readIn, shift, p)
  {
    OwnIndex(p, readIn);
    FloorIs(p);
    LineInRegion(Floor(p));
    Inside(base, readIn, Floor(p % readIn), PREF_SIZE);
    NotRefused(base + Floor(p % readIn), Floor(p), shift, PREF_SIZE);
  }

  /** The line that lies across the border of the region. */
  lemma BorderLine(base: nat, readIn: nat) returns (first: nat)
    requires readIn % 16 == 0 && base % 16 != 0 && base % 1024 + readIn > 1024
    ensures first % 16 == 0 && first < readIn && (base + first) % 1024 + PREF_SIZE > 1024
  {
    var left := 1024 - base % 1024;
    var over := left % 16;
    first := left - over;
    BeforeBorder(base, left);
    EndsInBorder(base, first, over);
  }

  lemma BeforeBorder(base: nat, left: nat)
    requires left == 1024 - base % 1024 && base % 16 != 0
    ensures left % 16 != 0 && (left - left % 16) % 16 == 0
  {
    SameLow(base);
    LowLeft(base % 1024);
  }

  lemma SameLow(base: nat)
    ensures (base % 1024) % 16 == base % 16
  {
    var q, r := base / 1024, base % 1024;
    assert base == 16 * (64 * q) + r;
  }

  lemma LowLeft(r: nat)
    requires r < 1024 && r % 16 != 0
    ensures (1024 - r) % 16 != 0 && (1024 - r - (1024 - r) % 16) % 16 == 0
  {}

  lemma EndsInBorder(base: nat, first: nat, over: nat)
    requires base % 1024 + first + over == 1024 && 0 < over < 16
    ensures (base + first) % 1024 == 1024 - over
  {}

  lemma OverBorder(local: nat, remote: nat, shift: nat)
    requires local % 1024 + PREF_SIZE > 1024
    ensures Refused(local, remote, shift, PREF_SIZE)
  {
    var q, r := local / 1024, local % 1024;
    assert local == 1024 * q + r;
    assert local * PAGE_SIZE == RPING_BUFSIZE * q + r * PAGE_SIZE;
  }

  /** Such a configuration: 8 slots for each of 3 nodes and 1008 read-in buffers put the line of index 992
      across the border of two regions. */
  lemma RefusedFetch(writeOut: nat, nodes: nat, readIn: nat, p: nat)
    requires writeOut == 8 && nodes == 3 && readIn == 1008 && p == 992
    ensures FetchRefused(writeOut * nodes, readIn, RemoteShift(writeOut, nodes, readIn), p)
  {
    WholeIndex(p, readIn);
    assert (writeOut * nodes + p) % 1024 == 1016;
    OverBorder(writeOut * nodes + Floor(p % readIn), Floor(p), RemoteShift(writeOut, nodes, readIn));
  }

  lemma WholeIndex(p: nat, readIn: nat)
    requires p < readIn && p % 16 == 0
    ensures Floor(p % readIn) == Floor(p) == p
  {
    DivMod(p, readIn, 0, p);
    FloorIs(p);
  }

  /** COMEX_RDMA_fn with PAGE_READ: read consecutive pages, unless the call is refused. */
  method DoRead(local: nat, remote: nat, shift: nat, count: nat, mem: map<nat, PageData>)
    returns (ok: bool, data: seq<PageData>)
    ensures ok <==> !Refused(local, remote, shift, count)
    ensures ok ==> |data| == count && forall i | 0 <= i < count :: data[i] == Get(mem, remote + i)
  {
    ok := !Refused(local, remote, shift, count);
    data := if ok then seq(count, i requires 0 <= i < count => Get(mem, remote + i)) else [];
  }

  // ----- the prefetch table -----

  ghost predicate TableShape(table: seq<Line>) {
    |table| > 0 && |table| % 16 == 0
  }

  predicate Hit(table: seq<Line>, n: nat, p: nat)
    requires |table| > 0
  {
    var e := table[p % |table|];
    e.status == 2 && e.nodeID == n && e.pageNO == p
  }

  /** The table after COMEX_void_preFetch. */
  function Voided(table: seq<Line>, n: nat, p: nat): seq<Line>
    requires |table| > 0
  {
    var i := p % |table|;
    if table[i].nodeID == n && table[i].pageNO == p then table[i := Line(-1, -1, -1, table[i].data)] else table
  }

  /** The table after the 16-page line of page p was read from remote memory. */
  ghost function Fetched(table: seq<Line>, mem: map<nat, PageData>, n: nat, p: nat): seq<Line>
    requires TableShape(table)
  {
    var first, page := Floor(p % |table|), Floor(p);
    seq(|table|, s requires 0 <= s < |table| =>
      if first <= s < first + PREF_SIZE then Line(2, n, page + (s - first), Get(mem, page + (s - first))) else table[s])
  }

  ghost predicate InLine(p: nat, q: nat) {
    Floor(p) <= q < Floor(p) + PREF_SIZE
  }

  lemma VoidedHits(table: seq<Line>, n: nat, p: nat, m: nat, q: nat)
    requires |table| > 0
    ensures Hit(Voided(table, n, p), m, q) <==> Hit(table, m, q) && !(m == n && q == p)
    ensures Hit(Voided(table, n, p), m, q) ==> Voided(table, n, p)[q % |table|] == table[q % |table|]
  {}

  /** After a fetch, exactly the pages of the line and the other pages whose index was not
      overwritten are in the table, the former with the data remote memory has. */
  lemma FetchedHits(table: seq<Line>, mem: map<nat, PageData>, n: nat, p: nat, m: nat, q: nat)
    requires TableShape(table)
    ensures |Fetched(table, mem, n, p)| == |table|
    ensures m == n && InLine(p, q) ==>
      Hit(Fetched(table, mem, n, p), m, q) && Fetched(table, mem, n, p)[q % |table|].data == Get(mem, q)
    ensures !(m == n && InLine(p, q)) ==>
      && (Hit(Fetched(table, mem, n, p), m, q) <==>
            Hit(table, m, q) && !(Floor(p % |table|) <= q % |table| < Floor(p % |table|) + PREF_SIZE))
      && (Hit(Fetched(table, mem, n, p), m, q) ==> Fetched(table, mem, n, p)[q % |table|] == table[q % |table|])
  {
    var first, page := Floor(p % |table|), Floor(p);
    LineIndex(p, |table|, 0);
    if InLine(p, q) {
      LineIndex(p, |table|, q - page);
    }
  }

  class PrefetchTable {
    const entries: array<Line>
    const base: nat             // the first local page of the read-in buffers
    const shift: nat            // remote_shift_offset, in groups of 1024 pages

    ghost predicate Valid()
      reads this, entries
    {
      TableShape(entries[..]) && LinesInside(base, entries.Length)
    }

    constructor (readIn: nat, base: nat, shift: nat)
      requires readIn > 0 && readIn % 16 == 0 && LinesInside(base, readIn)
      ensures Valid() && fresh(entries) && this.base == base && this.shift == shift
      ensures forall n: nat, p: nat :: !Hit(entries[..], n, p)
    {
      entries := new Line[readIn](i => Line(-1, -1, -1, []));
      this.base, this.shift := base, shift;
    }

    /** COMEX_void_preFetch */
    method VoidPreFetch(n: nat, p: nat)
      requires Valid()
      modifies entries
      ensures Valid() && entries[..] == Voided(old(entries[..]), n, p)
    {
      var i := p % entries.Length;
      if entries[i].nodeID == n && entries[i].pageNO == p {
        entries[i] := Line(-1, -1, -1, entries[i].data);
      }
    }

    /** COMEX_read_from_preFetch */
    method ReadFromPreFetch(n: nat, p: nat) returns (hit: bool, data: PageData)
      requires Valid()
      ensures hit <==> Hit(entries[..], n, p)
      ensures hit ==> data == entries[..][p % entries.Length].data
    {
      var e := entries[p % entries.Length];
      hit := e.status == 2 && e.nodeID == n && e.pageNO == p;
      data := e.data;
    }

    /** Invalidate the 16 entries from `first` on and read the line into their buffers. */
    method ReadLine(first: nat, page: nat, mem: map<nat, PageData>)
      requires first + PREF_SIZE <= entries.Length && !Refused(base + first, page, shift, PREF_SIZE)
      modifies entries
      ensures forall s | 0 <= s < entries.Length ::
        entries[s] == if first <= s < first + PREF_SIZE then Line(-1, -1, -1, Get(mem, page + (s - first)))
                      else old(entries[s])
    {
      for i := 0 to PREF_SIZE
        invariant forall s | 0 <= s < entries.Length ::
          entries[s] == if first <= s < first + i then Line(-1, -1, -1, old(entries[s].data)) else old(entries[s])
      {
        entries[first + i] := Line(-1, -1, -1, entries[first + i].data);
      }
      var ok, data := DoRead(base + first, page, shift, PREF_SIZE, mem);
      for i := 0 to PREF_SIZE
        invariant forall s | 0 <= s < entries.Length ::
          entries[s] == if first <= s < first + i then Line(-1, -1, -1, Get(mem, page + (s - first)))
                        else if first <= s < first + PREF_SIZE then Line(-1, -1, -1, old(entries[s].data))
                        else old(entries[s])
      {
        entries[first + i] := entries[first + i].(data := data[i]);
      }
    }

    /** Mark the 16 entries from `first` on as the line of node n from page `page` on. */
    method MarkLine(first: nat, page: nat, n: nat)
      requires first + PREF_SIZE <= entries.Length
      modifies entries
      ensures forall s | 0 <= s < entries.Length ::
        entries[s] == if first <= s < first + PREF_SIZE then Line(2, n, page + (s - first), old(entries[s].data))
                        else old(entries[s])
    {
      for i := 0 to PREF_SIZE
        invariant forall s | 0 <= s < entries.Length ::
          entries[s] == if first <= s < first + i then Line(2, n, page + (s - first), old(entries[s].data))
                        else old(entries[s])
      {
        entries[first + i] := entries[first + i].(status := 2, nodeID := n, pageNO := page + i);
      }
    }

    /** COMEX_read_from_remote */
    method ReadFromRemote(n: nat, p: nat, mem: map<nat, PageData>) returns (data: PageData)
      requires Valid()
      modifies entries
      ensures Valid() && entries[..] == Fetched(old(entries[..]), mem, n, p) && data == Get(mem, p)
    {
      var index := p % entries.Length;
      var first := Floor(index);
      var page := Floor(p);
      OwnIndex(p, entries.Length);
      FetchRefusedIff(base, entries.Length, shift);
      assert !FetchRefused(base, entries.Length, shift, p);
      ReadLine(first, page, mem);
      data := entries[index].data;
      MarkLine(first, page, n);
      LineStored(old(entries[..]), entries[..], mem, n, p);
    }
  }

  lemma LineStored(before: seq<Line>, after: seq<Line>, mem: map<nat, PageData>, n: nat, p: nat)
    requires TableShape(before) && |after| == |before|
    requires var first, page := Floor(p % |before|), Floor(p);
      forall s | 0 <= s < |before| ::
        after[s] == if first <= s < first + PREF_SIZE then Line(2, n, page + (s - first), Get(mem, page + (s - first)))
                   else before[s]
    ensures after == Fetched(before, mem, n, p)
  {}

  /** The page that was asked for is the entry at its own index of the line that was read. */
  lemma OwnIndex(p: nat, readIn: nat)
    requires readIn > 0 && readIn % 16 == 0
    ensures Floor(p % readIn) + PREF_SIZE <= readIn
    ensures Floor(p % readIn) <= p % readIn < Floor(p % readIn) + PREF_SIZE
    ensures Floor(p) + (p % readIn - Floor(p % readIn)) == p
  {
    FloorIs(p);
    LineIndex(p, readIn, p - Floor(p));
  }

  // ----- one borrower and all lenders -----

  /** What the borrower and the memory nodes hold.  `latest` is the specification: the last data
      the borrower wrote to each (node, page) it still holds. */
  datatype Store = Store(
    rings: seq<seq<Entry>>,
    table: seq<Line>,
    mem: seq<map<nat, PageData>>,
    latest: map<(nat, nat), PageData>)

  datatype Step =
    | Reserve(n: nat, p: nat)             // take a page, reserve its slot, void its prefetch entry
    | Fill(n: nat, i: nat, data: PageData)
    | Flush(n: nat, room: nat)
    | Fetch(n: nat, p: nat)
    | Release(n: nat, p: nat)
    | Foreign(n: nat, p: nat, data: PageData)  // another borrower writes a page it holds

  ghost predicate Shape(s: Store) {
    |s.rings| == |s.mem| && TableShape(s.table)
  }

  /** Page p is in the ring, filled or not. */
  ghost predicate InRing(window: seq<Entry>, p: nat) {
    exists i | 0 <= i < |window| :: window[i].page == p
  }

  lemma CutNotInRing(window: seq<Entry>, k: nat, p: nat)
    requires k <= |window| && !InRing(window, p)
    ensures !InRing(window[k..], p)
  {
    assert forall i | 0 <= i < |window| - k :: window[k..][i] == window[i + k];
  }

  /** The steps the code can take. */
  ghost predicate Enabled(s: Store, step: Step) {
    && Shape(s)
    && step.n < |s.rings|
    && match step
       case Reserve(n, p) => (n, p) !in s.latest && !InRing(s.rings[n], p)
       case Fill(n, i, _) => i < |s.rings[n]| && s.rings[n][i].Filling?
       case Flush(n, room) => true
       case Fetch(n, p) => (n, p) in s.latest && !Pending(s.rings[n], p) && !Hit(s.table, n, p)
       case Release(n, p) => (n, p) in s.latest
       case Foreign(n, p, _) => (n, p) !in s.latest
  }

  ghost function After(s: Store, step: Step): (s': Store)
    requires Enabled(s, step)
    ensures Shape(s') && |s'.rings| == |s.rings|
  {
    match step
    case Reserve(n, p) => s.(rings := s.rings[n := s.rings[n] + [Filling(p)]], table := Voided(s.table, n, p))
    case Fill(n, i, data) =>
      var p := s.rings[n][i].page;
      s.(rings := s.rings[n := s.rings[n][i := Ready(p, data)]], latest := s.latest[(n, p) := data])
    case Flush(n, room) =>
      s.(rings := s.rings[n := s.rings[n][BatchLen(s.rings[n], room)..]],
         mem := s.mem[n := Flushed(s.mem[n], s.rings[n], room)])
    case Fetch(n, p) => s.(table := Fetched(s.table, s.mem[n], n, p))
    case Release(n, p) => s.(latest := s.latest - {(n, p)})
    case Foreign(n, p, data) =>
      var written: map<nat, PageData> := s.mem[n][p := data];
      s.(mem := s.mem[n := written])
  }

  /** What reading page p of node n may return: a ready slot of the ring, else the prefetch table,
      else remote memory. */
  ghost predicate Reads(s: Store, n: nat, p: nat, data: PageData)
    requires Shape(s) && n < |s.rings|
  {
    if Pending(s.rings[n], p) then Ready(p, data) in s.rings[n]
    else if Hit(s.table, n, p) then data == s.table[p % |s.table|].data
    else data == Get(s.mem[n], p)
  }

  /** The conditions under which the three sources agree with what was written. */
  ghost predicate Safe(s: Store, step: Step) {
    && Enabled(s, step)
    && match step
       case Flush(n, room) => Faithful(s.rings[n], room)
       case Fetch(n, p) => forall q | InLine(p, q) :: !InRing(s.rings[n], q)
       case Release(n, p) => !InRing(s.rings[n], p)
       case _ => true
  }

  ghost predicate RingAgrees(s: Store) {
    && (forall n, i | 0 <= n < |s.rings| && 0 <= i < |s.rings[n]| && s.rings[n][i].Ready? ::
          (n, s.rings[n][i].page) in s.latest && s.latest[(n, s.rings[n][i].page)] == s.rings[n][i].data)
    && (forall n, i, j | 0 <= n < |s.rings| && 0 <= i < j < |s.rings[n]| :: s.rings[n][i].page != s.rings[n][j].page)
    && (forall n, i | 0 <= n < |s.rings| && 0 <= i < |s.rings[n]| && s.rings[n][i].Filling? ::
          (n, s.rings[n][i].page) !in s.latest)
  }

  ghost predicate MemAgrees(s: Store)
    requires Shape(s)
  {
    forall n: nat, p: nat | (n, p) in s.latest ::
      n < |s.rings| && (Pending(s.rings[n], p) || Get(s.mem[n], p) == s.latest[(n, p)])
  }

  ghost predicate TableAgrees(s: Store)
    requires Shape(s)
  {
    && (forall n: nat, p: nat | (n, p) in s.latest && Hit(s.table, n, p) ::
          s.table[p % |s.table|].data == s.latest[(n, p)])
    && (forall n, i | 0 <= n < |s.rings| && 0 <= i < |s.rings[n]| && s.rings[n][i].Filling? ::
          !Hit(s.table, n, s.rings[n][i].page))
  }

  /** Ring, prefetch table and remote memory agree with the last writes. */
  ghost predicate Coherent(s: Store) {
    Shape(s) && RingAgrees(s) && MemAgrees(s) && TableAgrees(s)
  }

  /** In a coherent store, a read of a held page returns the last data written to it. */
  lemma ReadsLatest(s: Store, n: nat, p: nat, data: PageData)
    requires Coherent(s) && n < |s.rings| && (n, p) in s.latest && Reads(s, n, p, data)
    ensures data == s.latest[(n, p)]
  {
    if Pending(s.rings[n], p) {
      var i :| 0 <= i < |s.rings[n]| && s.rings[n][i] == Ready(p, data);
    }
  }

  lemma ReserveKeeps(s: Store, n: nat, p: nat)
    requires Coherent(s) && Safe(s, Reserve(n, p))
    ensures Coherent(After(s, Reserve(n, p)))
  {
    var s' := After(s, Reserve(n, p));
    forall m: nat, q: nat
      ensures Hit(s'.table, m, q) <==> Hit(s.table, m, q) && !(m == n && q == p)
      ensures Hit(s'.table, m, q) ==> s'.table[q % |s'.table|] == s.table[q % |s.table|]
    {
      VoidedHits(s.table, n, p, m, q);
    }
    forall q
      ensures Pending(s'.rings[n], q) <==> Pending(s.rings[n], q)
    {
      PendingAppend(s.rings[n], Filling(p), q);
    }
  }

  lemma PendingAppend(window: seq<Entry>, e: Entry, q: nat)
    ensures Pending(window + [e], q) <==> Pending(window, q) || (e.Ready? && e.page == q)
  {
    var longer := window + [e];
    if i :| 0 <= i < |window| && window[i].Ready? && window[i].page == q {
      assert longer[i] == window[i];
    }
    assert longer[|window|] == e;
  }

  lemma FillKeeps(s: Store, n: nat, i: nat, data: PageData)
    requires Coherent(s) && Safe(s, Fill(n, i, data))
    ensures Coherent(After(s, Fill(n, i, data)))
  {
    var p := s.rings[n][i].page;
    var s' := After(s, Fill(n, i, data));
    assert !Hit(s.table, n, p);
    forall q
      ensures Pending(s'.rings[n], q) <==> Pending(s.rings[n], q) || q == p
    {
      PendingFill(s.rings[n], i, data, q);
    }
  }

  lemma PendingFill(window: seq<Entry>, i: nat, data: PageData, q: nat)
    requires i < |window| && window[i].Filling?
    ensures Pending(window[i := Ready(window[i].page, data)], q) <==> Pending(window, q) || q == window[i].page
  {
    var filled := window[i := Ready(window[i].page, data)];
    assert filled[i].Ready?;
    if j :| 0 <= j < |window| && window[j].Ready? && window[j].page == q {
      assert filled[j] == window[j];
    }
  }

  /** What a faithful flush does to remote memory: the pages of the batch hold the batch's data and
      the others are as they were. */
  lemma FlushedAt(mem: map<nat, PageData>, window: seq<Entry>, room: nat, q: nat)
    requires Faithful(window, room)
    ensures var k := BatchLen(window, room);
      && (forall i | 0 <= i < k && window[i].page == q ::
            window[i].Ready? && Get(Flushed(mem, window, room), q) == window[i].data)
      && ((forall i | 0 <= i < k :: window[i].page != q) ==> Get(Flushed(mem, window, room), q) == Get(mem, q))
  {
    BatchJoins(window, room);
    var k := BatchLen(window, room);
    if k > 0 {
      WriteRunAt(mem, window[0].page, BatchData(window, k), q);
      if window[0].page <= q < window[0].page + k {
        assert window[q - window[0].page].page == q;
      }
    }
  }

  /** A page that remote memory or the ring holds is held by one of them after a faithful flush. */
  lemma FlushAgrees(mem: map<nat, PageData>, window: seq<Entry>, room: nat, q: nat, data: PageData)
    requires Faithful(window, room)
    requires forall i | 0 <= i < |window| && window[i].Ready? && window[i].page == q :: window[i].data == data
    requires Pending(window, q) || Get(mem, q) == data
    ensures Pending(window[BatchLen(window, room)..], q) || Get(Flushed(mem, window, room), q) == data
  {
    var k := BatchLen(window, room);
    FlushedAt(mem, window, room, q);
    if j :| 0 <= j < |window| && window[j].Ready? && window[j].page == q {
      if j >= k {
        PendingCut(window, k, j);
      }
    }
  }

  lemma PendingCut(window: seq<Entry>, k: nat, j: nat)
    requires k <= j < |window| && window[j].Ready?
    ensures Pending(window[k..], window[j].page)
  {
    assert window[k..][j - k] == window[j];
  }

  /** What is left of the rings after a flush. */
  lemma FlushLeaves(s: Store, n: nat, room: nat, m: nat, i: nat)
    requires Enabled(s, Flush(n, room)) && m < |s.rings| && i < |After(s, Flush(n, room)).rings[m]|
    ensures var j := if m == n then i + BatchLen(s.rings[n], room) else i;
      j < |s.rings[m]| && After(s, Flush(n, room)).rings[m][i] == s.rings[m][j]
  {}

  lemma FlushKeepsRing(s: Store, n: nat, room: nat)
    requires Enabled(s, Flush(n, room)) && RingAgrees(s)
    ensures RingAgrees(After(s, Flush(n, room)))
  {
    var s' := After(s, Flush(n, room));
    forall m, i | 0 <= m < |s'.rings| && 0 <= i < |s'.rings[m]|
      ensures s'.rings[m][i] == s.rings[m][if m == n then i + BatchLen(s.rings[n], room) else i]
    {
      FlushLeaves(s, n, room, m, i);
    }
  }

  lemma FlushKeepsMem(s: Store, n: nat, room: nat)
    requires Safe(s, Flush(n, room)) && RingAgrees(s) && MemAgrees(s)
    ensures MemAgrees(After(s, Flush(n, room)))
  {
    var s' := After(s, Flush(n, room));
    forall m: nat, q: nat | (m, q) in s'.latest
      ensures m < |s'.rings| && (Pending(s'.rings[m], q) || Get(s'.mem[m], q) == s'.latest[(m, q)])
    {
      if m == n {
        FlushAgrees(s.mem[n], s.rings[n], room, q, s.latest[(n, q)]);
      }
    }
  }

  lemma FlushKeepsTable(s: Store, n: nat, room: nat)
    requires Enabled(s, Flush(n, room)) && TableAgrees(s)
    ensures TableAgrees(After(s, Flush(n, room)))
  {
    var s' := After(s, Flush(n, room));
    forall m, i | 0 <= m < |s'.rings| && 0 <= i < |s'.rings[m]| && s'.rings[m][i].Filling?
      ensures !Hit(s'.table, m, s'.rings[m][i].page)
    {
      FlushLeaves(s, n, room, m, i);
    }
  }

  lemma FlushKeeps(s: Store, n: nat, room: nat)
    requires Coherent(s) && Safe(s, Flush(n, room))
    ensures Coherent(After(s, Flush(n, room)))
  {
    FlushKeepsRing(s, n, room);
    FlushKeepsMem(s, n, room);
    FlushKeepsTable(s, n, room);
  }

  /** The exact condition for a fetch: a page of the line that is in the ring is ready there and
      remote memory already holds its data. */
  ghost predicate LineSettled(s: Store, n: nat, p: nat)
    requires Shape(s) && n < |s.rings|
  {
    forall i | 0 <= i < |s.rings[n]| && InLine(p, s.rings[n][i].page) ::
      s.rings[n][i].Ready? && Get(s.mem[n], s.rings[n][i].page) == s.rings[n][i].data
  }

  /** Fetching a line keeps the store coherent if and only if no page of the line is being filled
      or waits in the ring with data remote memory does not have yet. */
  lemma FetchKeepsIff(s: Store, n: nat, p: nat)
    requires Coherent(s) && Enabled(s, Fetch(n, p))
    ensures Coherent(After(s, Fetch(n, p))) <==> LineSettled(s, n, p)
  {
    var s' := After(s, Fetch(n, p));
    forall m: nat, q: nat
      ensures m == n && InLine(p, q) ==> Hit(s'.table, m, q) && s'.table[q % |s'.table|].data == Get(s.mem[n], q)
      ensures !(m == n && InLine(p, q)) && Hit(s'.table, m, q) ==>
        Hit(s.table, m, q) && s'.table[q % |s'.table|] == s.table[q % |s.table|]
    {
      FetchedHits(s.table, s.mem[n], n, p, m, q);
    }
    if LineSettled(s, n, p) {
      forall m: nat, q: nat | (m, q) in s'.latest && Hit(s'.table, m, q)
        ensures s'.table[q % |s'.table|].data == s'.latest[(m, q)]
      {
        if m == n && InLine(p, q) && Pending(s.rings[n], q) {
          var i :| 0 <= i < |s.rings[n]| && s.rings[n][i].Ready? && s.rings[n][i].page == q;
          assert Get(s.mem[n], q) == s.rings[n][i].data;
        }
      }
    } else {
      var i :| 0 <= i < |s.rings[n]| && InLine(p, s.rings[n][i].page)
        && !(s.rings[n][i].Ready? && Get(s.mem[n], s.rings[n][i].page) == s.rings[n][i].data);
      assert Hit(s'.table, n, s.rings[n][i].page);
      assert s'.rings[n][i] == s.rings[n][i];
    }
  }

  lemma FetchKeeps(s: Store, n: nat, p: nat)
    requires Coherent(s) && Safe(s, Fetch(n, p))
    ensures Coherent(After(s, Fetch(n, p)))
  {
    forall i | 0 <= i < |s.rings[n]| && InLine(p, s.rings[n][i].page)
      ensures false
    {
      assert InRing(s.rings[n], s.rings[n][i].page);
    }
    FetchKeepsIff(s, n, p);
  }

  /** Giving a held page back keeps the store coherent if and only if the page is not in the ring. */
  lemma ReleaseKeepsIff(s: Store, n: nat, p: nat)
    requires Coherent(s) && n < |s.rings| && (n, p) in s.latest
    ensures Coherent(After(s, Release(n, p))) <==> !InRing(s.rings[n], p)
  {
    var s' := After(s, Release(n, p));
    if i :| 0 <= i < |s.rings[n]| && s.rings[n][i].page == p {
      assert s.rings[n][i].Ready?;
      assert s'.rings[n][i].Ready?;
    }
  }

  lemma ForeignKeeps(s: Store, n: nat, p: nat, data: PageData)
    requires Coherent(s) && Safe(s, Foreign(n, p, data))
    ensures Coherent(After(s, Foreign(n, p, data)))
  {
    var s' := After(s, Foreign(n, p, data));
    assert forall q: nat | q != p :: Get(s'.mem[n], q) == Get(s.mem[n], q);
  }

  lemma SafeKeeps(s: Store, step: Step)
    requires Coherent(s) && Safe(s, step)
    ensures Coherent(After(s, step))
  {
    match step
    case Reserve(n, p) => ReserveKeeps(s, n, p);
    case Fill(n, i, data) => FillKeeps(s, n, i, data);
    case Flush(n, room) => FlushKeeps(s, n, room);
    case Fetch(n, p) => FetchKeeps(s, n, p);
    case Release(n, p) => ReleaseKeepsIff(s, n, p);
    case Foreign(n, p, data) => ForeignKeeps(s, n, p, data);
  }

  // ----- whole runs -----

  /** A borrower of `nodes` lenders that holds nothing yet, with `readIn` read-in buffers. */
  ghost function Initial(nodes: nat, readIn: nat, mem: seq<map<nat, PageData>>): Store
    requires |mem| == nodes
  {
    Store(seq(nodes, i => []), seq(readIn, i => Line(-1, -1, -1, [])), mem, map[])
  }

  lemma InitialCoherent(nodes: nat, readIn: nat, mem: seq<map<nat, PageData>>)
    requires |mem| == nodes && readIn > 0 && readIn % 16 == 0
    ensures Coherent(Initial(nodes, readIn, mem))
  {}

  ghost predicate IsRun(ss: seq<Store>, steps: seq<Step>) {
    && |ss| == |steps| + 1
    && forall i | 0 <= i < |steps| :: Safe(ss[i], steps[i]) && ss[i + 1] == After(ss[i], steps[i])
  }

  lemma {:induction false} RunCoherent(ss: seq<Store>, steps: seq<Step>, i: nat)
    requires IsRun(ss, steps) && Coherent(ss[0]) && i < |ss|
    ensures Coherent(ss[i])
    decreases i
  {
    if i == 0 {
    } else {
      RunCoherent(ss, steps, i - 1);
      SafeKeeps(ss[i - 1], steps[i - 1]);
    }
  }

  /** In every run of safe steps, every read of a held page returns the last data written to it. */
  lemma RunReadsLatest(ss: seq<Store>, steps: seq<Step>, i: nat, n: nat, p: nat, data: PageData)
    requires IsRun(ss, steps) && Coherent(ss[0]) && i < |ss|
    requires Shape(ss[i]) && n < |ss[i].rings| && (n, p) in ss[i].latest && Reads(ss[i], n, p, data)
    ensures data == ss[i].latest[(n, p)]
  {
    RunCoherent(ss, steps, i);
    ReadsLatest(ss[i], n, p, data);
  }
}

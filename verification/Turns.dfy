/** What can follow a state of one borrower's ring: pages are stored and slots filled, and the ring is
    flushed at the moments the code flushes it. */
module RingTurns {
  import opened Common
  import opened WriteOutRing
  import opened ReadPath

  // ----- windows -----

  ghost predicate DistinctPages(window: seq<Entry>) {
    forall i, j | 0 <= i < j < |window| :: window[i].page != window[j].page
  }

  /** Page p, put behind the window, makes no false join in its ring. */
  ghost predicate NewJoin(window: seq<Entry>, p: nat, head: nat, size: nat) {
    window != [] && head + |window| != size && Joins(window[|window| - 1].page, p) ==>
      p == window[|window| - 1].page + 1
  }

  lemma AppendWindow(window: seq<Entry>, p: nat, head: nat, size: nat)
    ensures RingJoins(PagesIn(window), head, size) && NewJoin(window, p, head, size) ==>
      RingJoins(PagesIn(window + [Filling(p)]), head, size)
    ensures DistinctPages(window) && !InRing(window, p) ==> DistinctPages(window + [Filling(p)])
  {
    PagesOfAppend(window, Filling(p));
  }

  /** What is left after a batch was cut off is as good as the whole. */
  lemma CutWindow(window: seq<Entry>, k: nat)
    requires k <= |window|
    ensures DistinctPages(window) ==> DistinctPages(window[k..])
    ensures PagesIn(window[k..]) == PagesIn(window)[k..]
  {
    assert forall i | 0 <= i < |window| - k :: window[k..][i] == window[k + i];
  }

  lemma CutJoins(window: seq<Entry>, k: nat, head: nat, size: nat)
    requires head < size && k <= |window| && head + k <= size && RingJoins(PagesIn(window), head, size)
    ensures RingJoins(PagesIn(window[k..]), Past(head, k, size), size)
  {
    var w, c := PagesIn(window), PagesIn(window[k..]);
    CutWindow(window, k);
    forall i, j | 0 <= i && j == i + 1 < |c| && Past(head, k, size) + j != size && Joins(c[i], c[j])
      ensures c[j] == c[i] + 1
    {
      assert c[i] == w[k + i] && c[j] == w[k + j];
      assert Joins(w[k + i], w[k + j]);
    }
  }

  lemma FillWindow(window: seq<Entry>, i: nat, data: PageData)
    requires i < |window|
    ensures PagesIn(window[i := Ready(window[i].page, data)]) == PagesIn(window)
    ensures DistinctPages(window) ==> DistinctPages(window[i := Ready(window[i].page, data)])
  {}

  // ----- the turns -----

  /** A store and the oldest slot of the ring that is looked at. */
  datatype Progress = Progress(store: Store, head: nat)

  /** COMEX_flush_buff on the ring of node n. */
  ghost function FlushTurn(s: Store, n: nat, head: nat, size: nat): (t: Progress)
    requires Shape(s) && n < |s.rings| && head < size
    ensures Shape(t.store) && |t.store.rings| == |s.rings| && t.head < size
  {
    Progress(After(s, Flush(n, size - head)), Past(head, BatchLen(s.rings[n], size - head), size))
  }

  /** What COMEX_move_to_Remote does next to the ring of node n: it flushes a full ring whose oldest page is
      filled, reserves the next slot, here for a page that makes no false join, or fills a slot. */
  ghost predicate CanTurn(s: Store, n: nat, head: nat, size: nat, step: Step) {
    && Enabled(s, step) && step.n == n && head < size && |s.rings[n]| <= size
    && match step
       case Reserve(_, p) => |s.rings[n]| < size && NewJoin(s.rings[n], p, head, size)
       case Fill(_, _, _) => true
       case Flush(_, room) => room == size - head && FullAndReady(s.rings[n], size)
       case _ => false
  }

  /** Filling a 32nd slot flushes the ring. */
  ghost function Turn(s: Store, n: nat, head: nat, size: nat, step: Step): (t: Progress)
    requires CanTurn(s, n, head, size, step)
    ensures Shape(t.store) && |t.store.rings| == |s.rings| && t.head < size
  {
    if step.Flush? then FlushTurn(s, n, head, size)
    else if step.Fill? && FlushSlot(Past(head, step.i, size)) then FlushTurn(After(s, step), n, head, size)
    else Progress(After(s, step), head)
  }

  /** Such turns on the ring of node n, whose oldest slot is `head` and which has `size` slots, can take store
      s to s'. */
  ghost predicate Drains(s: Store, n: nat, head: nat, size: nat, steps: seq<Step>, s': Store)
    requires Shape(s) && n < |s.rings| && head < size
    decreases |steps|
  {
    if steps == [] then s' == s
    else
      && CanTurn(s, n, head, size, steps[0])
      && var t := Turn(s, n, head, size, steps[0]);
        Drains(t.store, n, t.head, size, steps[1..], s')
  }

  lemma DrainsFirst(s: Store, n: nat, head: nat, size: nat, step: Step, rest: seq<Step>, s': Store)
    requires CanTurn(s, n, head, size, step)
    requires var t := Turn(s, n, head, size, step); Drains(t.store, n, t.head, size, rest, s')
    ensures Drains(s, n, head, size, [step] + rest, s')
  {
    assert ([step] + rest)[1..] == rest;
  }

  /** The borrower does not take page p again. */
  ghost predicate Spares(steps: seq<Step>, p: nat) {
    forall step | step in steps :: !(step.Reserve? && step.p == p)
  }

  // ----- what turns keep -----

  lemma FlushTurnKeeps(s: Store, n: nat, head: nat, size: nat)
    requires Coherent(s) && n < |s.rings| && head < size && RingJoins(PagesIn(s.rings[n]), head, size)
    ensures var t := FlushTurn(s, n, head, size);
      Coherent(t.store) && RingJoins(PagesIn(t.store.rings[n]), t.head, size)
  {
    RealWindow(s.rings[n], head, size);
    FlushKeeps(s, n, size - head);
    CutJoins(s.rings[n], BatchLen(s.rings[n], size - head), head, size);
  }

  lemma TurnKeeps(s: Store, n: nat, head: nat, size: nat, step: Step)
    requires Coherent(s) && CanTurn(s, n, head, size, step) && RingJoins(PagesIn(s.rings[n]), head, size)
    ensures var t := Turn(s, n, head, size, step);
      Coherent(t.store) && RingJoins(PagesIn(t.store.rings[n]), t.head, size)
  {
    match step
    case Reserve(_, p) =>
      ReserveKeeps(s, n, p);
      AppendWindow(s.rings[n], p, head, size);
    case Fill(_, i, data) =>
      FillKeeps(s, n, i, data);
      FillWindow(s.rings[n], i, data);
      if FlushSlot(Past(head, i, size)) {
        FlushTurnKeeps(After(s, step), n, head, size);
      }
    case Flush(_, _) => FlushTurnKeeps(s, n, head, size);
  }

  /** Turns without false joins keep the store coherent. */
  lemma {:induction false} DrainsCoherent(s: Store, n: nat, head: nat, size: nat, steps: seq<Step>, s': Store)
    requires Coherent(s) && n < |s.rings| && head < size && RingJoins(PagesIn(s.rings[n]), head, size)
    requires Drains(s, n, head, size, steps, s')
    ensures Coherent(s')
    decreases |steps|
  {
    if steps == [] {
    } else {
      TurnKeeps(s, n, head, size, steps[0]);
      var t := Turn(s, n, head, size, steps[0]);
      DrainsCoherent(t.store, n, t.head, size, steps[1..], s');
    }
  }

  /** Page p is not in the ring, and remote memory holds what it held. */
  ghost predicate Untouched(s: Store, n: nat, p: nat, s': Store)
    requires Shape(s) && Shape(s') && n < |s.rings| == |s'.rings|
  {
    !InRing(s'.rings[n], p) && Get(s'.mem[n], p) == Get(s.mem[n], p)
  }

  lemma FlushedElsewhere(mem: map<nat, PageData>, window: seq<Entry>, head: nat, size: nat, p: nat)
    requires head < size && RingJoins(PagesIn(window), head, size) && !InRing(window, p)
    ensures Get(Flushed(mem, window, size - head), p) == Get(mem, p)
  {
    RealWindow(window, head, size);
    FlushedAt(mem, window, size - head, p);
  }

  lemma FlushTurnElsewhere(s: Store, n: nat, head: nat, size: nat, p: nat)
    requires Shape(s) && n < |s.rings| && head < size && RingJoins(PagesIn(s.rings[n]), head, size)
    requires !InRing(s.rings[n], p)
    ensures var t := FlushTurn(s, n, head, size);
      RingJoins(PagesIn(t.store.rings[n]), t.head, size) && Untouched(s, n, p, t.store)
  {
    var k := BatchLen(s.rings[n], size - head);
    FlushedElsewhere(s.mem[n], s.rings[n], head, size, p);
    CutJoins(s.rings[n], k, head, size);
    CutNotInRing(s.rings[n], k, p);
  }

  lemma TurnElsewhere(s: Store, n: nat, head: nat, size: nat, step: Step, p: nat)
    requires CanTurn(s, n, head, size, step) && RingJoins(PagesIn(s.rings[n]), head, size)
    requires !InRing(s.rings[n], p) && !(step.Reserve? && step.p == p)
    ensures var t := Turn(s, n, head, size, step);
      RingJoins(PagesIn(t.store.rings[n]), t.head, size) && Untouched(s, n, p, t.store)
  {
    match step
    case Reserve(_, q) => AppendWindow(s.rings[n], q, head, size);
    case Fill(_, i, data) =>
      FillWindow(s.rings[n], i, data);
      if FlushSlot(Past(head, i, size)) {
        FlushTurnElsewhere(After(s, step), n, head, size, p);
      }
    case Flush(_, _) => FlushTurnElsewhere(s, n, head, size, p);
  }

  /** Turns without false joins leave a page alone that is not in the ring and not taken again. */
  lemma {:induction false} DrainsElsewhere(s: Store, n: nat, head: nat, size: nat, steps: seq<Step>, s': Store, p: nat)
    requires Shape(s) && n < |s.rings| && head < size && RingJoins(PagesIn(s.rings[n]), head, size)
    requires Drains(s, n, head, size, steps, s') && !InRing(s.rings[n], p) && Spares(steps, p)
    ensures Shape(s') && |s'.rings| == |s.rings| && Untouched(s, n, p, s')
    decreases |steps|
  {
    if steps == [] {
    } else {
      assert steps[0] in steps;
      TurnElsewhere(s, n, head, size, steps[0], p);
      var t := Turn(s, n, head, size, steps[0]);
      DrainsElsewhere(t.store, n, t.head, size, steps[1..], s', p);
    }
  }

  // ----- every page gets out in the end -----

  /** Entry i of the window went to remote memory: it is in the ring no more, `latest` says what was
      written to its page, the prefetch table has of it what it had, and without false joins remote memory
      holds it. */
  ghost predicate WrittenOut(s: Store, n: nat, head: nat, size: nat, i: nat, data: PageData, s': Store)
    requires Shape(s) && n < |s.rings| && i < |s.rings[n]|
  {
    var e := s.rings[n][i];
    && Shape(s') && |s'.rings| == |s.rings| && !InRing(s'.rings[n], e.page)
    && LatestOut(s, n, e, data, s') && StillHit(s.table, s'.table, n, e.page)
    && (RingJoins(PagesIn(s.rings[n]), head, size) ==> Get(s'.mem[n], e.page) == if e.Ready? then e.data else data)
  }

  ghost predicate LatestOut(s: Store, n: nat, e: Entry, data: PageData, s': Store) {
    if e.Filling? then (n, e.page) in s'.latest && s'.latest[(n, e.page)] == data
    else (n, e.page) in s.latest ==> (n, e.page) in s'.latest && s'.latest[(n, e.page)] == s.latest[(n, e.page)]
  }

  ghost predicate StillHit(table: seq<Line>, table': seq<Line>, n: nat, p: nat)
    requires |table| > 0
  {
    && |table'| == |table|
    && (Hit(table, n, p) ==> Hit(table', n, p) && table'[p % |table|].data == table[p % |table|].data)
  }

  lemma FlushedOut(mem: map<nat, PageData>, window: seq<Entry>, head: nat, size: nat, i: nat)
    requires head < size && RingJoins(PagesIn(window), head, size) && i < BatchLen(window, size - head)
    ensures window[i].Ready? && Get(Flushed(mem, window, size - head), window[i].page) == window[i].data
  {
    RealWindow(window, head, size);
    FlushedAt(mem, window, size - head, window[i].page);
  }

  lemma CutOut(window: seq<Entry>, k: nat, i: nat)
    requires i < k <= |window| && DistinctPages(window)
    ensures !InRing(window[k..], window[i].page)
  {
    assert forall j | 0 <= j < |window| - k :: window[k..][j] == window[k + j];
  }

  /** The flush that takes entry i along. */
  lemma FlushOut(s: Store, n: nat, head: nat, size: nat, i: nat, data: PageData)
    requires Shape(s) && n < |s.rings| && head < size && DistinctPages(s.rings[n])
    requires i < BatchLen(s.rings[n], size - head)
    ensures WrittenOut(s, n, head, size, i, data, FlushTurn(s, n, head, size).store)
  {
    var window := s.rings[n];
    BatchReady(window, size - head, i);
    CutOut(window, BatchLen(window, size - head), i);
    if RingJoins(PagesIn(window), head, size) {
      FlushedOut(s.mem[n], window, head, size, i);
    }
  }

  lemma BatchReady(window: seq<Entry>, room: nat, i: nat)
    requires i < BatchLen(window, room)
    ensures window[i].Ready?
  {
    BatchJoins(window, room);
  }

  lemma OutAfterFlush(s: Store, n: nat, head: nat, size: nat, i: nat, data: PageData, s': Store)
    requires Shape(s) && n < |s.rings| && head < size && BatchLen(s.rings[n], size - head) <= i < |s.rings[n]|
    requires var t := FlushTurn(s, n, head, size);
      WrittenOut(t.store, n, t.head, size, i - BatchLen(s.rings[n], size - head), data, s')
    ensures WrittenOut(s, n, head, size, i, data, s')
  {
    var k := BatchLen(s.rings[n], size - head);
    assert s.rings[n][k..][i - k] == s.rings[n][i];
    if RingJoins(PagesIn(s.rings[n]), head, size) {
      CutJoins(s.rings[n], k, head, size);
    }
  }

  lemma OutAfterFill(s: Store, n: nat, head: nat, size: nat, i: nat, data: PageData, s': Store)
    requires Shape(s) && n < |s.rings| && DistinctPages(s.rings[n]) && i < |s.rings[n]| && s.rings[n][0].Filling?
    requires WrittenOut(After(s, Fill(n, 0, data)), n, head, size, i, data, s')
    ensures WrittenOut(s, n, head, size, i, data, s')
  {
    FillWindow(s.rings[n], 0, data);
  }

  lemma OutAfterReserve(s: Store, n: nat, head: nat, size: nat, i: nat, data: PageData, p: nat, s': Store)
    requires Enabled(s, Reserve(n, p)) && i < |s.rings[n]| && NewJoin(s.rings[n], p, head, size)
    requires WrittenOut(After(s, Reserve(n, p)), n, head, size, i, data, s')
    ensures WrittenOut(s, n, head, size, i, data, s')
  {
    var e := s.rings[n][i];
    AppendWindow(s.rings[n], p, head, size);
    VoidedHits(s.table, n, p, n, e.page);
  }

  // ----- a page to store next -----

  lemma {:induction false} Bound(s: set<nat>) returns (b: nat)
    ensures forall x | x in s :: x < b
    decreases s
  {
    if s == {} {
      b := 0;
    } else {
      var x :| x in s;
      b := Bound(s - {x});
      assert forall y | y in s :: y == x || y in s - {x};
      b := if b <= x then x + 1 else b;
    }
  }

  /** Some page is neither held nor in the ring, and starts a 1024-page group. */
  lemma NextPage(s: Store, n: nat, head: nat, size: nat) returns (p: nat)
    requires Shape(s) && n < |s.rings|
    ensures Enabled(s, Reserve(n, p)) && NewJoin(s.rings[n], p, head, size)
  {
    var held := set k | k in s.latest :: k.1;
    var queued := set i | 0 <= i < |s.rings[n]| :: s.rings[n][i].page;
    var b := Bound(held + queued);
    p := 1024 * b;
    assert forall i | 0 <= i < |s.rings[n]| :: s.rings[n][i].page in queued;
    assert (n, p) in s.latest ==> p in held;
  }

  // ----- draining -----


  /** Every entry of every ring gets out: slots are filled, further pages stored, and the ring flushed when it
      is full or a 32nd slot was filled.  Slots that still have to be filled get `data`. */
  lemma {:induction false} DrainTo(s: Store, n: nat, head: nat, size: nat, i: nat, data: PageData)
    returns (steps: seq<Step>, s': Store)
    requires Shape(s) && n < |s.rings| && head < size && DistinctPages(s.rings[n])
    requires i < |s.rings[n]| <= size
    ensures Drains(s, n, head, size, steps, s') && WrittenOut(s, n, head, size, i, data, s')
    ensures Spares(steps, s.rings[n][i].page)
    decreases i, size - |s.rings[n]|, if s.rings[n][0].Filling? then 1 else 0, 1
  {
    var step: Step;
    var rest: seq<Step>;
    if s.rings[n][0].Filling? {
      step := Fill(n, 0, data);
      var s1 := After(s, step);
      FillWindow(s.rings[n], 0, data);
      if FlushSlot(head) {
        rest, s' := DrainFlushed(s1, n, head, size, i, data);
      } else {
        rest, s' := DrainTo(s1, n, head, size, i, data);
      }
      OutAfterFill(s, n, head, size, i, data, s');
    } else if |s.rings[n]| == size {
      step := Flush(n, size - head);
      rest, s' := DrainFlushed(s, n, head, size, i, data);
    } else {
      var p := NextPage(s, n, head, size);
      step := Reserve(n, p);
      AppendWindow(s.rings[n], p, head, size);
      rest, s' := DrainTo(After(s, step), n, head, size, i, data);
      OutAfterReserve(s, n, head, size, i, data, p, s');
    }
    DrainsFirst(s, n, head, size, step, rest, s');
    steps := [step] + rest;
  }

  /** What a flush that does not take entry i along leaves of the ring. */
  lemma FlushRest(s: Store, n: nat, head: nat, size: nat, i: nat)
    requires Shape(s) && n < |s.rings| && head < size && DistinctPages(s.rings[n]) && i < |s.rings[n]|
    requires s.rings[n][0].Ready? && BatchLen(s.rings[n], size - head) <= i
    ensures var k, rest := BatchLen(s.rings[n], size - head), FlushTurn(s, n, head, size).store.rings[n];
      0 < k && DistinctPages(rest) && |rest| == |s.rings[n]| - k && rest[i - k] == s.rings[n][i]
  {
    BatchJoins(s.rings[n], size - head);
    CutWindow(s.rings[n], BatchLen(s.rings[n], size - head));
  }

  /** The same, right after a flush whose batch is not empty. */
  lemma {:induction false} DrainFlushed(s: Store, n: nat, head: nat, size: nat, i: nat, data: PageData)
    returns (rest: seq<Step>, s': Store)
    requires Shape(s) && n < |s.rings| && head < size && DistinctPages(s.rings[n])
    requires i < |s.rings[n]| <= size && s.rings[n][0].Ready?
    ensures var t := FlushTurn(s, n, head, size); Drains(t.store, n, t.head, size, rest, s')
    ensures WrittenOut(s, n, head, size, i, data, s') && Spares(rest, s.rings[n][i].page)
    decreases i, size - |s.rings[n]|, 0, 0
  {
    var k := BatchLen(s.rings[n], size - head);
    if i < k {
      FlushOut(s, n, head, size, i, data);
      rest, s' := [], FlushTurn(s, n, head, size).store;
    } else {
      FlushRest(s, n, head, size, i);
      rest, s' := DrainRest(s, n, head, size, i, data, k, FlushTurn(s, n, head, size));
      OutAfterFlush(s, n, head, size, i, data, s');
    }
  }

  lemma {:induction false} DrainRest(s: Store, n: nat, head: nat, size: nat, i: nat, data: PageData, k: nat,
                                     t: Progress)
    returns (rest: seq<Step>, s': Store)
    requires Shape(s) && n < |s.rings| && i < |s.rings[n]| <= size && 0 < k <= i
    requires Shape(t.store) && n < |t.store.rings| && t.head < size && DistinctPages(t.store.rings[n])
    requires |t.store.rings[n]| == |s.rings[n]| - k && t.store.rings[n][i - k] == s.rings[n][i]
    ensures Drains(t.store, n, t.head, size, rest, s')
    ensures WrittenOut(t.store, n, t.head, size, i - k, data, s') && Spares(rest, s.rings[n][i].page)
    decreases i - k, size, 0, 0
  {
    rest, s' := DrainTo(t.store, n, t.head, size, i - k, data);
  }

  // ----- the exact conditions, in terms of what is read and what is lost -----

  /** Every read of a held page returns the last data written to it. */
  ghost predicate ReadsRight(s: Store) {
    && Shape(s)
    && forall n: nat, p: nat, data: PageData | n < |s.rings| && (n, p) in s.latest && Reads(s, n, p, data) ::
      data == s.latest[(n, p)]
  }

  lemma CoherentReadsRight(s: Store)
    requires Coherent(s)
    ensures ReadsRight(s)
  {
    forall n: nat, p: nat, data: PageData | n < |s.rings| && (n, p) in s.latest && Reads(s, n, p, data)
      ensures data == s.latest[(n, p)]
    {
      ReadsLatest(s, n, p, data);
    }
  }

  /** Whatever is stored next, reads stay right. */
  ghost predicate StaysRight(s: Store, n: nat, head: nat, size: nat)
    requires Shape(s) && n < |s.rings| && head < size
  {
    forall steps, s' | Drains(s, n, head, size, steps, s') :: ReadsRight(s')
  }

  /** Whatever is stored next, but to page p itself, remote page p keeps `data`. */
  ghost predicate StaysAs(s: Store, n: nat, head: nat, size: nat, p: nat, data: PageData)
    requires Shape(s) && n < |s.rings| && head < size
  {
    forall steps, s' | Drains(s, n, head, size, steps, s') && Spares(steps, p) ::
      n < |s'.mem| && Get(s'.mem[n], p) == data
  }

  lemma GoesWrong(s: Store, n: nat, head: nat, size: nat, steps: seq<Step>, s': Store)
    requires Shape(s) && n < |s.rings| && head < size && Drains(s, n, head, size, steps, s') && !ReadsRight(s')
    ensures !StaysRight(s, n, head, size)
  {}

  lemma GetsLost(s: Store, n: nat, head: nat, size: nat, p: nat, data: PageData, steps: seq<Step>, s': Store)
    requires Shape(s) && n < |s.rings| && head < size && Drains(s, n, head, size, steps, s') && Spares(steps, p)
    requires n < |s'.mem| && Get(s'.mem[n], p) != data
    ensures !StaysAs(s, n, head, size, p, data)
  {}

  lemma SettledStaysRight(s: Store, n: nat, head: nat, size: nat)
    requires Coherent(s) && n < |s.rings| && head < size && RingJoins(PagesIn(s.rings[n]), head, size)
    ensures StaysRight(s, n, head, size)
  {
    forall steps, s' | Drains(s, n, head, size, steps, s')
      ensures ReadsRight(s')
    {
      DrainsCoherent(s, n, head, size, steps, s');
      CoherentReadsRight(s');
    }
  }

  lemma ElsewhereStaysAs(s: Store, n: nat, head: nat, size: nat, p: nat)
    requires Shape(s) && n < |s.rings| && head < size && RingJoins(PagesIn(s.rings[n]), head, size)
    requires !InRing(s.rings[n], p)
    ensures StaysAs(s, n, head, size, p, Get(s.mem[n], p))
  {
    forall steps, s' | Drains(s, n, head, size, steps, s') && Spares(steps, p)
      ensures n < |s'.mem| && Get(s'.mem[n], p) == Get(s.mem[n], p)
    {
      DrainsElsewhere(s, n, head, size, steps, s', p);
    }
  }

  /** A fetch of a line that is not settled leads, by stores alone, to a state in which a held page is read
      with data older than what was written last. */
  lemma UnsettledFetch(s: Store, n: nat, p: nat, head: nat, size: nat) returns (steps: seq<Step>, s': Store)
    requires Coherent(s) && Enabled(s, Fetch(n, p)) && head < size && |s.rings[n]| <= size && !LineSettled(s, n, p)
    ensures Drains(After(s, Fetch(n, p)), n, head, size, steps, s') && !ReadsRight(s')
  {
    var window, s1 := s.rings[n], After(s, Fetch(n, p));
    var i :| 0 <= i < |window| && InLine(p, window[i].page)
      && !(window[i].Ready? && Get(s.mem[n], window[i].page) == window[i].data);
    var q := window[i].page;
    var before := Get(s.mem[n], q);
    FetchedHits(s.table, s.mem[n], n, p, n, q);
    steps, s' := DrainTo(s1, n, head, size, i, before + [0]);
    assert !Pending(s'.rings[n], q);
    assert Reads(s', n, q, before);
    assert s'.latest[(n, q)] != before;
  }

  /** Exact condition for a fetch that the read path makes: after it, whatever is stored without a false
      join, every held page is read with its latest data if and only if no page of the line was being
      filled or waited in the ring with data remote memory did not have. */
  lemma FetchHarmlessIff(s: Store, n: nat, p: nat, head: nat, size: nat)
    requires Coherent(s) && Enabled(s, Fetch(n, p)) && head < size && |s.rings[n]| <= size
    requires RingJoins(PagesIn(s.rings[n]), head, size)
    ensures StaysRight(After(s, Fetch(n, p)), n, head, size) <==> LineSettled(s, n, p)
  {
    var s1 := After(s, Fetch(n, p));
    if LineSettled(s, n, p) {
      FetchKeepsIff(s, n, p);
      SettledStaysRight(s1, n, head, size);
    } else {
      var steps, s' := UnsettledFetch(s, n, p, head, size);
      GoesWrong(s1, n, head, size, steps, s');
    }
  }

  /** A state in which this happens: page 0 was stored and flushed, page 1 waits in the ring, and page 0 is
      read.  Giving page 1 back is as bad. */
  lemma UnsettledExample() returns (s: Store)
    ensures Coherent(s) && Enabled(s, Fetch(0, 0)) && !LineSettled(s, 0, 0)
    ensures Enabled(s, Release(0, 1)) && InRing(s.rings[0], 1)
  {
    var ring := [Ready(1, [1])];
    s := Store([ring], seq(16, i => Line(-1, -1, -1, [])), [map[0 := [7]]], map[(0, 0) := [7], (0, 1) := [1]]);
    assert s.rings[0] == ring && ring[0].page == 1;
    assert Pending(s.rings[0], 1);
    FloorIs(0);
    assert InLine(0, 1);
  }

  /** The smallest case: q is a neighbour of page p in its line, p waits in the ring, and q is read from
      remote memory.  After the flush, reads of p return what remote memory held before. */
  lemma StalePrefetch(s: Store, n: nat, p: nat, q: nat, data: PageData, room: nat, got: PageData)
    requires Coherent(s) && Enabled(s, Fetch(n, q)) && room > 0 && InLine(q, p)
    requires s.rings[n] == [Ready(p, data)] && Get(s.mem[n], p) != data
    ensures q != p
    ensures var s' := After(After(s, Fetch(n, q)), Flush(n, room));
      && (n, p) in s'.latest && s'.latest[(n, p)] == data
      && (Reads(s', n, p, got) ==> got == Get(s.mem[n], p) != data)
  {
    var s1 := After(s, Fetch(n, q));
    var s' := After(s1, Flush(n, room));
    FetchedHits(s.table, s.mem[n], n, q, n, p);
    assert s.rings[n][0] == Ready(p, data);
    assert Pending(s.rings[n], p);
    assert BatchLen(s.rings[n], room) == 1;
    assert s'.rings[n] == [];
  }

  /** Page p was given back and its next holder wrote to it. */
  ghost function Reissued(s: Store, n: nat, p: nat, theirs: PageData): (s': Store)
    requires Enabled(s, Release(n, p))
    ensures Shape(s') && |s'.rings| == |s.rings|
  {
    After(After(s, Release(n, p)), Foreign(n, p, theirs))
  }

  /** A page given back while it is anywhere in the ring: further stores overwrite what its next holder
      wrote. */
  lemma LostForeignWrite(s: Store, n: nat, p: nat, theirs: PageData, head: nat, size: nat)
    returns (steps: seq<Step>, s': Store)
    requires Coherent(s) && Enabled(s, Release(n, p)) && head < size && |s.rings[n]| <= size
    requires RingJoins(PagesIn(s.rings[n]), head, size) && InRing(s.rings[n], p)
    ensures Drains(Reissued(s, n, p, theirs), n, head, size, steps, s') && Spares(steps, p) && n < |s'.mem|
    ensures Get(s'.mem[n], p) == s.latest[(n, p)]
  {
    var i :| 0 <= i < |s.rings[n]| && s.rings[n][i].page == p;
    assert s.rings[n][i].Ready?;
    steps, s' := DrainTo(Reissued(s, n, p, theirs), n, head, size, i, []);
  }

  /** Exact condition for giving a page back: whatever the borrower stores afterwards without a false join,
      what the next holder wrote to the page stays if and only if the page is not in the ring. */
  lemma ReleaseHarmlessIff(s: Store, n: nat, p: nat, theirs: PageData, head: nat, size: nat)
    requires Coherent(s) && Enabled(s, Release(n, p)) && head < size && |s.rings[n]| <= size
    requires RingJoins(PagesIn(s.rings[n]), head, size) && theirs != s.latest[(n, p)]
    ensures StaysAs(Reissued(s, n, p, theirs), n, head, size, p, theirs) <==> !InRing(s.rings[n], p)
  {
    if InRing(s.rings[n], p) {
      var steps, s' := LostForeignWrite(s, n, p, theirs, head, size);
      GetsLost(Reissued(s, n, p, theirs), n, head, size, p, theirs, steps, s');
    } else {
      ElsewhereStaysAs(Reissued(s, n, p, theirs), n, head, size, p);
    }
  }
}

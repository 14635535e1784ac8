/** The whole system: the lending protocol over any number of nodes, the remote memories, and every
    borrower's rings, prefetch table and last writes. */
module Cluster {
  import opened Bits
  import opened Blocks
  import opened GroupQueue
  import opened FreeBatch
  import opened Protocol
  import Ring = WriteOutRing
  import Read = ReadPath

  /** What one borrower has of its own: a ring for each lender, one prefetch table, and, as specification,
      the data it last wrote to each page it holds. */
  datatype Local = Local(
    rings: seq<seq<Ring.Entry>>,
    table: seq<Read.Line>,
    latest: map<(nat, nat), Ring.PageData>)

  /** mem[l] is the remote memory of lender l, which all its borrowers read and write. */
  datatype State = State(world: World, mem: seq<map<nat, Ring.PageData>>, locals: seq<Local>)

  datatype Move =
    | Other(act: Action)                // any step of the protocol but the two below
    | Take(b: nat, l: nat)              // take a page, reserve its slot, void its prefetch entry
    | Access(b: nat, step: Read.Step)   // fill a slot, flush a ring, or fetch a line for a read
    | Return(b: nat, l: nat, p: nat)    // give a page back

  ghost predicate Fits(c: State) {
    && Shaped(c.world) && |c.mem| == |c.locals| == |c.world.nodes|
    && forall b | 0 <= b < |c.locals| ::
      |c.locals[b].rings| == |c.world.nodes| && Read.TableShape(c.locals[b].table)
  }

  /** The read path of borrower b. */
  ghost function View(c: State, b: nat): (s: Read.Store)
    requires Fits(c) && b < |c.locals|
    ensures Read.Shape(s) && |s.rings| == |c.world.nodes|
  {
    Read.Store(c.locals[b].rings, c.locals[b].table, c.mem, c.locals[b].latest)
  }

  /** The state with the read path of borrower b, and with it the remote memories, replaced. */
  ghost function WithView(c: State, b: nat, s: Read.Store): State
    requires b < |c.locals|
  {
    c.(mem := s.mem, locals := c.locals[b := Local(s.rings, s.table, s.latest)])
  }

  ghost function Reserved(s: Read.Store, l: nat, p: nat): Read.Store
    requires Read.Shape(s) && l < |s.rings|
  {
    s.(rings := s.rings[l := s.rings[l] + [Ring.Filling(p)]], table := Read.Voided(s.table, l, p))
  }

  ghost predicate Moves(c: State, move: Move, c': State, refill: nat)
    requires Fits(c)
  {
    var n := |c.world.nodes|;
    match move
    case Other(act) =>
      !act.Take? && !act.Release? && Next(c.world, act, c'.world, refill) && c' == c.(world := c'.world)
    case Take(b, l) =>
      && Next(c.world, Action.Take(b, l), c'.world, refill)
      && var p := AccountOf(c.world, b, l).queue[0].pageStart;
        c' == WithView(c, b, Reserved(View(c, b), l, p)).(world := c'.world)
    case Access(b, step) =>
      && b < n && (step.Fill? || step.Flush? || step.Fetch?) && Read.Enabled(View(c, b), step)
      && c' == WithView(c, b, Read.After(View(c, b), step))
    case Return(b, l, p) =>
      && Next(c.world, Action.Release(b, l, p), c'.world, refill)
      && var s := View(c, b);
        c' == WithView(c, b, s.(latest := s.latest - {(l, p)})).(world := c'.world)
  }

  /** The three things that must not happen: a flush with a false join, a fetch of a line that is not
      settled, and giving back a page that is in the ring. */
  ghost predicate Careful(c: State, move: Move)
    requires Fits(c)
  {
    match move
    case Other(_) => true
    case Take(_, _) => true
    case Access(b, step) =>
      b < |c.locals| && step.n < |c.world.nodes| ==>
        && (step.Flush? ==> Ring.Faithful(c.locals[b].rings[step.n], step.room))
        && (step.Fetch? ==> Read.LineSettled(View(c, b), step.n, step.p))
    case Return(b, l, p) =>
      b < |c.locals| && l < |c.world.nodes| ==> !Read.InRing(c.locals[b].rings[l], p)
  }

  // ----- what every careful run keeps -----

  /** The pages in the rings of borrower b and those it wrote to are in use by it. */
  ghost predicate LocalHeld(c: State, b: nat)
    requires Fits(c) && b < |c.locals|
  {
    && (forall l, i | 0 <= l < |c.world.nodes| && 0 <= i < |c.locals[b].rings[l]| ::
          c.locals[b].rings[l][i].page in AccountOf(c.world, b, l).inUse)
    && (forall l: nat, p: nat | (l, p) in c.locals[b].latest ::
          l < |c.world.nodes| && p in AccountOf(c.world, b, l).inUse)
  }

  ghost predicate Sound(c: State, pools: seq<set<nat>>) {
    && Fits(c) && Owned(c.world, pools)
    && forall b | 0 <= b < |c.locals| :: LocalHeld(c, b) && Read.Coherent(View(c, b))
  }

  // ----- the steps of the protocol alone -----

  lemma SameAccounts(w: World, k: nat, n': Node, net': seq<Msg>, b: nat, l: nat)
    requires Shaped(w) && k < |w.nodes| && b < |w.nodes| && l < |w.nodes| && n'.accounts == w.nodes[k].accounts
    requires Shaped(World(w.nodes[k := n'], net'))
    ensures AccountOf(World(w.nodes[k := n'], net'), b, l) == AccountOf(w, b, l)
  {}

  /** The other protocol steps change no set of pages in use. */
  lemma InUseSame(w: World, act: Action, w': World, refill: nat, b: nat, l: nat)
    requires Shaped(w) && Shaped(w') && Next(w, act, w', refill) && !act.Take? && !act.Release?
    requires b < |w.nodes| && l < |w.nodes|
    ensures |w'.nodes| == |w.nodes| && AccountOf(w', b, l).inUse == AccountOf(w, b, l).inUse
  {
    match act
    case Request(k, _) =>
      assert w.nodes == w.nodes[k := w.nodes[k]];
      SameAccounts(w, k, w.nodes[k], w'.net, b, l);
    case Try(i, _) =>
      WithoutShaped(w, i);
      SameAccounts(w, w.net[i].dst, w'.nodes[w.net[i].dst], w'.net, b, l);
    case Receive(i) =>
      var m := w.net[i];
      WithoutShaped(w, i);
      AccountShaped(w, m.dst, m.src);
      AccountAfter(w, m.dst, m.src, w'.nodes[m.dst].accounts[m.src], w'.net, b, l);
    case Reclaim(i) =>
      WithoutShaped(w, i);
      var k := w.net[i].dst;
      assert w.net[i].runs == [] ==> w'.nodes == w.nodes[k := w.nodes[k]];
      SameAccounts(w, k, w'.nodes[k], w'.net, b, l);
    case TakeLocal(k, _) => SameAccounts(w, k, w'.nodes[k], w'.net, b, l);
    case ReleaseLocal(k, _) => SameAccounts(w, k, w'.nodes[k], w'.net, b, l);
  }

  lemma OtherKeeps(c: State, pools: seq<set<nat>>, act: Action, c': State, refill: nat)
    requires Sound(c, pools) && Moves(c, Other(act), c', refill)
    ensures Sound(c', pools)
  {
    StepKeeps(c.world, pools, act, c'.world, refill);
    forall b | 0 <= b < |c.locals|
      ensures Fits(c') && LocalHeld(c', b) && Read.Coherent(View(c', b))
    {
      forall l | 0 <= l < |c.world.nodes|
        ensures |c'.world.nodes| == |c.world.nodes|
        ensures AccountOf(c'.world, b, l).inUse == AccountOf(c.world, b, l).inUse
      {
        InUseSame(c.world, act, c'.world, refill, b, l);
      }
      assert LocalHeld(c, b);
      assert View(c', b) == View(c, b);
    }
  }

  // ----- taking a page -----

  /** The page a borrower takes next is neither in its ring nor one it wrote to, so its slot may be
      reserved. */
  lemma TakenIsNew(c: State, pools: seq<set<nat>>, b: nat, l: nat)
    requires Sound(c, pools) && b < |c.locals| && l < |c.world.nodes| && AccountOf(c.world, b, l).queue != []
    ensures var p := AccountOf(c.world, b, l).queue[0].pageStart;
      p !in AccountOf(c.world, b, l).inUse && Read.Enabled(View(c, b), Read.Reserve(l, p))
  {
    var a := AccountOf(c.world, b, l);
    AccountShaped(c.world, b, l);
    assert NonEmpty(a.queue[0]);
    OnlyThere(c.world, pools, b, l, a.queue[0].pageStart);
    assert LocalHeld(c, b);
  }

  lemma TakeAccounts(w: World, b: nat, l: nat, w': World, refill: nat, k: nat, m: nat)
    requires Shaped(w) && Shaped(w') && Next(w, Action.Take(b, l), w', refill) && k < |w.nodes| && m < |w.nodes|
    ensures |w'.nodes| == |w.nodes| && AccountOf(w', k, m).inUse ==
      AccountOf(w, k, m).inUse + if k == b && m == l then {AccountOf(w, b, l).queue[0].pageStart} else {}
  {
    AccountShaped(w, b, l);
    AccountAfter(w, b, l, w'.nodes[b].accounts[l], w'.net, k, m);
  }

  lemma TakeSound(c: State, pools: seq<set<nat>>, b: nat, l: nat, c': State, refill: nat)
    requires Sound(c, pools) && Moves(c, Move.Take(b, l), c', refill)
    ensures Sound(c', pools)
  {
    TakeKeeps(c.world, pools, b, l, c'.world, refill);
    TakenIsNew(c, pools, b, l);
    var p := AccountOf(c.world, b, l).queue[0].pageStart;
    var s := View(c, b);
    assert Read.After(s, Read.Reserve(l, p)) == Reserved(s, l, p);
    Read.ReserveKeeps(s, l, p);
    forall k | 0 <= k < |c.locals|
      ensures Fits(c') && LocalHeld(c', k) && Read.Coherent(View(c', k))
    {
      forall m | 0 <= m < |c.world.nodes|
        ensures |c'.world.nodes| == |c.world.nodes|
        ensures AccountOf(c'.world, k, m).inUse == AccountOf(c.world, k, m).inUse + if k == b && m == l then {p} else {}
      {
        TakeAccounts(c.world, b, l, c'.world, refill, k, m);
      }
      assert LocalHeld(c, k);
      assert View(c', k) == if k == b then Reserved(s, l, p) else View(c, k);
    }
  }

  // ----- giving a page back -----

  lemma ReleaseAccounts(w: World, b: nat, l: nat, p: nat, w': World, refill: nat, k: nat, m: nat)
    requires Shaped(w) && Shaped(w') && Next(w, Action.Release(b, l, p), w', refill) && k < |w.nodes| && m < |w.nodes|
    ensures |w'.nodes| == |w.nodes| && AccountOf(w', k, m).inUse ==
      AccountOf(w, k, m).inUse - if k == b && m == l then {p} else {}
  {
    AccountShaped(w, b, l);
    AccountAfter(w, b, l, w'.nodes[b].accounts[l], w'.net, k, m);
  }

  lemma Released(s: Read.Store, l: nat, p: nat)
    requires Read.Coherent(s) && l < |s.rings| && !Read.InRing(s.rings[l], p)
    ensures Read.Coherent(s.(latest := s.latest - {(l, p)}))
  {
    if (l, p) in s.latest {
      Read.ReleaseKeepsIff(s, l, p);
      assert Read.After(s, Read.Release(l, p)) == s.(latest := s.latest - {(l, p)});
    } else {
      assert s.latest - {(l, p)} == s.latest;
    }
  }

  lemma ReturnSound(c: State, pools: seq<set<nat>>, b: nat, l: nat, p: nat, c': State, refill: nat)
    requires Sound(c, pools) && Moves(c, Return(b, l, p), c', refill) && Careful(c, Return(b, l, p))
    ensures Sound(c', pools)
  {
    ReleaseKeeps(c.world, pools, b, l, p, c'.world, refill);
    var s := View(c, b);
    Released(s, l, p);
    forall k | 0 <= k < |c.locals|
      ensures Fits(c') && LocalHeld(c', k) && Read.Coherent(View(c', k))
    {
      ReturnHeld(c, b, l, p, c', refill, k);
      assert View(c', k) == if k == b then s.(latest := s.latest - {(l, p)}) else View(c, k);
    }
  }

  lemma ReturnHeld(c: State, b: nat, l: nat, p: nat, c': State, refill: nat, k: nat)
    requires Fits(c) && Shaped(c'.world) && k < |c.locals| && LocalHeld(c, k)
    requires Moves(c, Return(b, l, p), c', refill) && Careful(c, Return(b, l, p))
    ensures Fits(c') && LocalHeld(c', k)
  {
    forall m | 0 <= m < |c.world.nodes|
      ensures |c'.world.nodes| == |c.world.nodes|
      ensures AccountOf(c'.world, k, m).inUse == AccountOf(c.world, k, m).inUse - if k == b && m == l then {p} else {}
    {
      ReleaseAccounts(c.world, b, l, p, c'.world, refill, k, m);
    }
  }

  // ----- filling, flushing, fetching -----

  /** Writes of others to pages a borrower does not hold leave its store coherent. */
  lemma OthersWrite(s: Read.Store, mem': seq<map<nat, Ring.PageData>>)
    requires Read.Coherent(s) && |mem'| == |s.mem|
    requires forall l: nat, p: nat | (l, p) in s.latest && l < |s.mem| :: Read.Get(mem'[l], p) == Read.Get(s.mem[l], p)
    ensures Read.Coherent(s.(mem := mem'))
  {}

  /** A faithful flush changes remote memory at pages of the ring only. */
  lemma FlushWritesRing(mem: map<nat, Ring.PageData>, window: seq<Ring.Entry>, room: nat, p: nat)
    requires Ring.Faithful(window, room) && Read.Get(Ring.Flushed(mem, window, room), p) != Read.Get(mem, p)
    ensures exists i :: 0 <= i < |window| && window[i].page == p
  {
    Read.FlushedAt(mem, window, room, p);
  }

  /** One writer per page: a flush without a false join changes only remote pages its borrower holds, which
      no other borrower holds, has queued or is giving back, which are on no message, and which the lender
      neither has free nor uses itself. */
  lemma FlushWritesOwn(c: State, pools: seq<set<nat>>, b: nat, l: nat, room: nat, p: nat)
    requires Sound(c, pools) && b < |c.locals| && l < |c.world.nodes| && Ring.Faithful(c.locals[b].rings[l], room)
    requires Read.Get(Ring.Flushed(c.mem[l], c.locals[b].rings[l], room), p) != Read.Get(c.mem[l], p)
    ensures p in AccountOf(c.world, b, l).inUse
    ensures p in pools[l] && p !in c.world.nodes[l].free && p !in c.world.nodes[l].local
    ensures forall k | 0 <= k < |c.world.nodes| && k != b :: AccountCount(AccountOf(c.world, k, l), p) == 0
    ensures FlightCount(c.world.net, l, p) == 0
  {
    FlushWritesRing(c.mem[l], c.locals[b].rings[l], room, p);
    assert LocalHeld(c, b);
    NeverLentTwice(c.world, pools, b, l, p);
  }

  /** ... and so no page another borrower holds. */
  lemma FlushSparesHeld(c: State, pools: seq<set<nat>>, b: nat, l: nat, room: nat, k: nat, p: nat)
    requires Sound(c, pools) && b < |c.locals| && l < |c.world.nodes| && Ring.Faithful(c.locals[b].rings[l], room)
    requires k < |c.locals| && k != b && p in AccountOf(c.world, k, l).inUse
    ensures Read.Get(Ring.Flushed(c.mem[l], c.locals[b].rings[l], room), p) == Read.Get(c.mem[l], p)
  {
    if Read.Get(Ring.Flushed(c.mem[l], c.locals[b].rings[l], room), p) != Read.Get(c.mem[l], p) {
      FlushWritesOwn(c, pools, b, l, room, p);
    }
  }

  /** So it leaves the stores of all other borrowers coherent. */
  lemma FlushSparesOthers(c: State, pools: seq<set<nat>>, b: nat, l: nat, room: nat, k: nat)
    requires Sound(c, pools) && b < |c.locals| && l < |c.world.nodes| && Ring.Faithful(c.locals[b].rings[l], room)
    requires k < |c.locals| && k != b
    ensures var mem' := Read.After(View(c, b), Read.Flush(l, room)).mem;
      Read.Coherent(View(c, k).(mem := mem'))
  {
    var mem' := Read.After(View(c, b), Read.Flush(l, room)).mem;
    forall m: nat, p: nat | (m, p) in c.locals[k].latest && m < |c.mem|
      ensures Read.Get(mem'[m], p) == Read.Get(c.mem[m], p)
    {
      assert LocalHeld(c, k);
      if m == l {
        FlushSparesHeld(c, pools, b, l, room, k, p);
      }
    }
    OthersWrite(View(c, k), mem');
  }

  lemma FillOwn(c: State, b: nat, l: nat, i: nat, data: Ring.PageData, c': State)
    requires Fits(c) && b < |c.locals| && LocalHeld(c, b) && Read.Coherent(View(c, b))
    requires Read.Enabled(View(c, b), Read.Fill(l, i, data))
    requires c' == WithView(c, b, Read.After(View(c, b), Read.Fill(l, i, data)))
    ensures Fits(c') && LocalHeld(c', b) && Read.Coherent(View(c', b))
  {
    Read.FillKeeps(View(c, b), l, i, data);
    assert View(c', b) == Read.After(View(c, b), Read.Fill(l, i, data));
  }

  lemma FlushFits(c: State, b: nat, l: nat, room: nat, c': State)
    requires Fits(c) && b < |c.locals| && Read.Enabled(View(c, b), Read.Flush(l, room))
    requires c' == WithView(c, b, Read.After(View(c, b), Read.Flush(l, room)))
    ensures Fits(c') && View(c', b) == Read.After(View(c, b), Read.Flush(l, room))
  {}

  lemma FlushHeld(c: State, b: nat, l: nat, room: nat, c': State)
    requires Fits(c) && b < |c.locals| && LocalHeld(c, b) && Read.Enabled(View(c, b), Read.Flush(l, room))
    requires c' == WithView(c, b, Read.After(View(c, b), Read.Flush(l, room))) && Fits(c')
    ensures LocalHeld(c', b)
  {
    var n := Ring.BatchLen(c.locals[b].rings[l], room);
    forall k, i | 0 <= k < |c.world.nodes| && 0 <= i < |c'.locals[b].rings[k]|
      ensures c'.locals[b].rings[k][i].page in AccountOf(c'.world, b, k).inUse
    {
      assert c'.locals[b].rings[k][i] == c.locals[b].rings[k][if k == l then i + n else i];
    }
  }

  lemma FlushOwn(c: State, b: nat, l: nat, room: nat, c': State)
    requires Fits(c) && b < |c.locals| && LocalHeld(c, b) && Read.Coherent(View(c, b))
    requires Read.Enabled(View(c, b), Read.Flush(l, room)) && Ring.Faithful(c.locals[b].rings[l], room)
    requires c' == WithView(c, b, Read.After(View(c, b), Read.Flush(l, room)))
    ensures Fits(c') && LocalHeld(c', b) && Read.Coherent(View(c', b))
  {
    FlushFits(c, b, l, room, c');
    FlushHeld(c, b, l, room, c');
    Read.FlushKeeps(View(c, b), l, room);
  }

  lemma FetchOwn(c: State, b: nat, l: nat, p: nat, c': State)
    requires Fits(c) && b < |c.locals| && LocalHeld(c, b) && Read.Coherent(View(c, b))
    requires Read.Enabled(View(c, b), Read.Fetch(l, p)) && Read.LineSettled(View(c, b), l, p)
    requires c' == WithView(c, b, Read.After(View(c, b), Read.Fetch(l, p)))
    ensures Fits(c') && LocalHeld(c', b) && Read.Coherent(View(c', b))
  {
    Read.FetchKeepsIff(View(c, b), l, p);
    assert View(c', b) == Read.After(View(c, b), Read.Fetch(l, p));
  }

  /** The borrower's own side of an access. */
  lemma AccessOwn(c: State, pools: seq<set<nat>>, b: nat, step: Read.Step, c': State, refill: nat)
    requires Sound(c, pools) && Moves(c, Access(b, step), c', refill) && Careful(c, Access(b, step))
    ensures Fits(c') && LocalHeld(c', b) && Read.Coherent(View(c', b))
  {
    assert LocalHeld(c, b);
    match step
    case Fill(l, i, data) => FillOwn(c, b, l, i, data, c');
    case Flush(l, room) => FlushOwn(c, b, l, room, c');
    case Fetch(l, p) => FetchOwn(c, b, l, p, c');
  }

  lemma AccessSound(c: State, pools: seq<set<nat>>, b: nat, step: Read.Step, c': State, refill: nat)
    requires Sound(c, pools) && Moves(c, Access(b, step), c', refill) && Careful(c, Access(b, step))
    ensures Sound(c', pools)
  {
    AccessOwn(c, pools, b, step, c', refill);
    forall k | 0 <= k < |c.locals| && k != b
      ensures LocalHeld(c', k) && Read.Coherent(View(c', k))
    {
      assert LocalHeld(c, k);
      assert View(c', k) == View(c, k).(mem := c'.mem);
      if step.Flush? {
        FlushSparesOthers(c, pools, b, step.n, step.room, k);
      } else {
        assert View(c', k) == View(c, k);
      }
    }
  }

  lemma MoveSound(c: State, pools: seq<set<nat>>, move: Move, c': State, refill: nat)
    requires Sound(c, pools) && Moves(c, move, c', refill) && Careful(c, move)
    ensures Sound(c', pools)
  {
    match move
    case Other(act) => OtherKeeps(c, pools, act, c', refill);
    case Take(b, l) => TakeSound(c, pools, b, l, c', refill);
    case Access(b, step) => AccessSound(c, pools, b, step, c', refill);
    case Return(b, l, p) => ReturnSound(c, pools, b, l, p, c', refill);
  }

  // ----- whole runs -----

  ghost predicate IsCarefulRun(cs: seq<State>, moves: seq<Move>, refill: nat) {
    && |cs| == |moves| + 1
    && forall i | 0 <= i < |moves| ::
      Fits(cs[i]) && Moves(cs[i], moves[i], cs[i + 1], refill) && Careful(cs[i], moves[i])
  }

  /** Nothing is lent or written yet. */
  ghost predicate Start(c: State, pools: seq<set<nat>>, readIn: nat) {
    && Fresh(c.world, pools) && |c.mem| == |c.locals| == |c.world.nodes|
    && forall b | 0 <= b < |c.locals| ::
      var s := Read.Initial(|c.world.nodes|, readIn, c.mem);
      c.locals[b] == Local(s.rings, s.table, s.latest)
  }

  lemma StartSound(c: State, pools: seq<set<nat>>, readIn: nat)
    requires Start(c, pools, readIn) && readIn > 0 && readIn % 16 == 0
    ensures Sound(c, pools)
  {
    FreshOwned(c.world, pools);
    forall b | 0 <= b < |c.locals|
      ensures LocalHeld(c, b) && Read.Coherent(View(c, b))
    {
      assert View(c, b) == Read.Initial(|c.world.nodes|, readIn, c.mem);
      Read.InitialCoherent(|c.world.nodes|, readIn, c.mem);
    }
  }

  lemma {:induction false} RunSound(cs: seq<State>, moves: seq<Move>, pools: seq<set<nat>>, refill: nat, i: nat)
    requires IsCarefulRun(cs, moves, refill) && Sound(cs[0], pools) && i < |cs|
    ensures Sound(cs[i], pools)
    decreases i
  {
    if i == 0 {
    } else {
      RunSound(cs, moves, pools, refill, i - 1);
      MoveSound(cs[i - 1], pools, moves[i - 1], cs[i], refill);
    }
  }

  /** Nothing stands in the way of a read: a page the borrower wrote to is in its ring or its prefetch table,
      or the fetch of its line is a move. */
  lemma ReadServed(c: State, b: nat, l: nat, p: nat, refill: nat)
    requires Fits(c) && b < |c.locals| && l < |c.world.nodes| && (l, p) in c.locals[b].latest
    ensures Ring.Pending(c.locals[b].rings[l], p) || Read.Hit(c.locals[b].table, l, p)
      || exists c' :: Moves(c, Access(b, Read.Fetch(l, p)), c', refill) && Read.Hit(c'.locals[b].table, l, p)
  {
    var s, step := View(c, b), Read.Fetch(l, p);
    if !Ring.Pending(c.locals[b].rings[l], p) && !Read.Hit(c.locals[b].table, l, p) {
      var c' := WithView(c, b, Read.After(s, step));
      Read.FloorIs(p);
      Read.FetchedHits(s.table, s.mem[l], l, p, l, p);
      assert Moves(c, Access(b, step), c', refill);
      assert Read.Hit(c'.locals[b].table, l, p);
    }
  }

  /** Nor of a write: the next granted page can be taken, and its slot filled. */
  lemma WriteServed(c: State, pools: seq<set<nat>>, b: nat, l: nat, data: Ring.PageData, refill: nat)
    returns (c1: State, c2: State)
    requires Sound(c, pools) && b < |c.locals| && l < |c.world.nodes| && AccountOf(c.world, b, l).queue != []
    ensures Moves(c, Move.Take(b, l), c1, refill) && Fits(c1)
    ensures var p := AccountOf(c.world, b, l).queue[0].pageStart;
      && Moves(c1, Access(b, Read.Fill(l, |c.locals[b].rings[l]|, data)), c2, refill)
      && (l, p) in c2.locals[b].latest && c2.locals[b].latest[(l, p)] == data
  {
    var a := AccountOf(c.world, b, l);
    var p := a.queue[0].pageStart;
    var a' := a.(queue := Pop(a.queue), inUse := a.inUse + {p});
    var w := c.world.(nodes := SetAccount(c.world.nodes, b, l, a'));
    c1 := WithView(c, b, Reserved(View(c, b), l, p)).(world := w);
    assert Moves(c, Move.Take(b, l), c1, refill);
    TakeSound(c, pools, b, l, c1, refill);
    var fill := Read.Fill(l, |c.locals[b].rings[l]|, data);
    c2 := WithView(c1, b, Read.After(View(c1, b), fill));
  }

  /** The system works: in every state of every run of any number of nodes, from start-up on, in which no
      flush makes a false join, no unsettled line is fetched and no page is given back while it is in the
      ring, every borrower reads from every page it wrote to what it last wrote, whatever the others do. */
  lemma EveryoneReadsTheirWrites(cs: seq<State>, moves: seq<Move>, pools: seq<set<nat>>, refill: nat, readIn: nat,
                                 i: nat, b: nat, l: nat, p: nat, got: Ring.PageData)
    requires IsCarefulRun(cs, moves, refill) && Start(cs[0], pools, readIn) && readIn > 0 && readIn % 16 == 0
    requires i < |cs| && Fits(cs[i]) && b < |cs[i].locals| && l < |cs[i].world.nodes|
    requires (l, p) in cs[i].locals[b].latest && Read.Reads(View(cs[i], b), l, p, got)
    ensures got == cs[i].locals[b].latest[(l, p)]
  {
    StartSound(cs[0], pools, readIn);
    RunSound(cs, moves, pools, refill, i);
    Read.ReadsLatest(View(cs[i], b), l, p, got);
  }
}

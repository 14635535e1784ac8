/** The lending protocol over any number of nodes.

    A world is the nodes and the messages in flight.  A message may be taken from any place of the
    flight list, so delivery order does not matter.  The steps use the very functions the node's
    code is proved against: the allocator's answers, the group queue and the release batch. */
module Protocol {
  import opened Bits
  import opened Blocks
  import opened PageFree
  import opened Lender
  import opened GroupQueue
  import opened FreeBatch

  /** What one node holds of one lender. */
  datatype Account = Account(queue: seq<Group>, inUse: set<nat>, batch: seq<Run>)

  datatype Node = Node(free: set<nat>, local: set<nat>, accounts: seq<Account>)

  datatype Msg =
    | Rqst(src: nat, dst: nat, order: nat)  // the order its handler tries next
    | Rply(src: nat, dst: nat, pageNO: int, size: nat)
    | Free(src: nat, dst: nat, runs: seq<Run>)  // the runs not yet handled

  datatype World = World(nodes: seq<Node>, net: seq<Msg>)

  datatype Action =
    | Request(b: nat, l: nat)
    | Try(i: nat, pageNO: int)
    | Receive(i: nat)
    | Take(b: nat, l: nat)
    | Release(b: nat, l: nat, p: nat)
    | Reclaim(i: nat)
    | TakeLocal(l: nat, r: int)
    | ReleaseLocal(l: nat, p: nat)

  // ----- where a page of lender l is -----

  function Here(s: set<nat>, p: nat): nat {
    if p in s then 1 else 0
  }

  function GroupCount(g: Group, p: nat): nat {
    if g.pageStart <= p <= g.pageEnd then 1 else 0
  }

  ghost function QueueCount(queue: seq<Group>, p: nat): nat {
    if queue == [] then 0 else GroupCount(queue[0], p) + QueueCount(queue[1..], p)
  }

  ghost function AccountCount(a: Account, p: nat): nat {
    QueueCount(a.queue, p) + Here(a.inUse, p) + RunsCount(a.batch, p)
  }

  /** The places of page p of lender l among the borrowers. */
  ghost function BorrowedCount(nodes: seq<Node>, l: nat, p: nat): nat
    requires forall n | n in nodes :: l < |n.accounts|
  {
    if nodes == [] then 0 else AccountCount(nodes[0].accounts[l], p) + BorrowedCount(nodes[1..], l, p)
  }

  ghost function MsgCount(m: Msg, l: nat, p: nat): nat {
    match m
    case Rqst(_, _, _) => 0
    case Rply(src, _, pageNO, size) => if src == l && pageNO >= 0 then RunCount(Run(pageNO, Pow2(size)), p) else 0
    case Free(_, dst, runs) => if dst == l then RunsCount(runs, p) else 0
  }

  /** The places of page p of lender l among the messages in flight. */
  ghost function FlightCount(net: seq<Msg>, l: nat, p: nat): nat {
    if net == [] then 0 else MsgCount(net[0], l, p) + FlightCount(net[1..], l, p)
  }

  /** In how many places page p of lender l is. */
  ghost function Places(w: World, l: nat, p: nat): nat
    requires Shaped(w) && l < |w.nodes|
  {
    Here(w.nodes[l].free, p) + Here(w.nodes[l].local, p) + BorrowedCount(w.nodes, l, p) + FlightCount(w.net, l, p)
  }

  // ----- well-formed worlds -----

  ghost predicate NodeShaped(n: Node, nodes: nat) {
    && |n.accounts| == nodes
    && forall a | a in n.accounts :: WellFormedQueue(a.queue) && WellFormedBatch(a.batch)
  }

  ghost predicate MsgShaped(m: Msg, nodes: nat) {
    && m.src < nodes && m.dst < nodes
    && (m.Free? ==> WellFormedBatch(m.runs))
  }

  ghost predicate Shaped(w: World) {
    && (forall n | n in w.nodes :: NodeShaped(n, |w.nodes|))
    && (forall m | m in w.net :: MsgShaped(m, |w.nodes|))
  }

  // ----- the steps -----

  /** What becomes of a request after a try: a reply, or the next lower order is tried. */
  function Tried(m: Msg, pageNO: int): Msg
    requires m.Rqst?
  {
    if pageNO < 0 && m.order > 5 then Rqst(m.src, m.dst, m.order - 1) else Rply(m.dst, m.src, pageNO, m.order)
  }

  lemma RunsPositive(m: Msg)
    requires m.Free? && WellFormedBatch(m.runs) && m.runs != []
    ensures m.runs[0].count > 0
  {
    assert m.runs[0] in m.runs;
  }

  /** The block the handler frees next. */
  ghost function FrontBlock(r: Run): Block
    requires r.count > 0
  {
    Block(r.start, Greedy(r.start, r.count, TOP))
  }

  /** The runs that are left after that. */
  ghost function RunsAfter(runs: seq<Run>): seq<Run>
    requires runs != [] && runs[0].count > 0
  {
    var r := runs[0];
    GreedyFits(r.start, r.count);
    var size := Pow2(FrontBlock(r).order);
    if size == r.count then runs[1..] else [Run(r.start + size, r.count - size)] + runs[1..]
  }

  /** The message with what is left of it, if anything is. */
  ghost function LeftOver(m: Msg): seq<Msg>
    requires m.Free? && m.runs != [] && m.runs[0].count > 0
  {
    if RunsAfter(m.runs) == [] then [] else [Free(m.src, m.dst, RunsAfter(m.runs))]
  }

  function Without(net: seq<Msg>, i: nat): seq<Msg>
    requires i < |net|
  {
    net[..i] + net[i + 1..]
  }

  function SetAccount(nodes: seq<Node>, b: nat, l: nat, a: Account): seq<Node>
    requires b < |nodes| && l < |nodes[b].accounts|
  {
    nodes[b := nodes[b].(accounts := nodes[b].accounts[l := a])]
  }

  ghost function AccountOf(w: World, b: nat, l: nat): (a: Account)
    requires Shaped(w) && b < |w.nodes| && l < |w.nodes|
    ensures l < |w.nodes[b].accounts|
  {
    assert NodeShaped(w.nodes[b], |w.nodes|);
    w.nodes[b].accounts[l]
  }

  ghost function MsgAt(w: World, i: nat): (m: Msg)
    requires Shaped(w) && i < |w.net|
    ensures MsgShaped(m, |w.nodes|)
  {
    assert w.net[i] in w.net;
    w.net[i]
  }

  /** One atomic step of one node. */
  ghost predicate Next(w: World, act: Action, w': World, refill: nat)
    requires Shaped(w)
  {
    var n := |w.nodes|;
    match act
    case Request(b, l) =>  // COMEX_move_to_Remote asks for pages
      b < n && l < n && w' == w.(net := w.net + [Rqst(b, l, refill)])
    case Try(i, pageNO) =>  // one COMEX_rmqueue_smallest of COMEX_pages_request
      && i < |w.net| && w.net[i].Rqst?
      && var m := MsgAt(w, i);
        exists free' ::
          && TakeResult(w.nodes[m.dst].free, m.order, pageNO, free')
          && w' == World(w.nodes[m.dst := w.nodes[m.dst].(free := free')], Without(w.net, i) + [Tried(m, pageNO)])
    case Receive(i) =>  // COMEX_page_receive
      && i < |w.net| && w.net[i].Rply?
      && var m := MsgAt(w, i);
        var a := AccountOf(w, m.dst, m.src);
        var queue' := if m.pageNO >= 0 then Arrive(a.queue, m.pageNO, m.size) else a.queue;
        w' == World(SetAccount(w.nodes, m.dst, m.src, a.(queue := queue')), Without(w.net, i))
    case Take(b, l) =>  // COMEX_freelist_getpage
      && b < n && l < n
      && var a := AccountOf(w, b, l);
        && a.queue != []
        && w' == w.(nodes := SetAccount(w.nodes, b, l,
                                                a.(queue := Pop(a.queue), inUse := a.inUse + {a.queue[0].pageStart})))
    case Release(b, l, p) =>  // COMEX_free_to_remote
      && b < n && l < n && p in AccountOf(w, b, l).inUse
      && var a := AccountOf(w, b, l);
        var r := ReleasePage(a.batch, p);
        w' == World(SetAccount(w.nodes, b, l, a.(inUse := a.inUse - {p}, batch := r.batch)),
                    if r.sent == [] then w.net else w.net + [Free(b, l, r.sent[0])])
    case Reclaim(i) =>  // one COMEX_free_page of COMEX_do_work on PAGE_FREE
      && i < |w.net| && w.net[i].Free?
      && var m := MsgAt(w, i);
        if m.runs == [] then w' == w.(net := Without(w.net, i))
        else
          RunsPositive(m);
          var free' := w.nodes[m.dst].free + Pages(FrontBlock(m.runs[0]));
          w' == World(w.nodes[m.dst := w.nodes[m.dst].(free := free')], Without(w.net, i) + LeftOver(m))
    case TakeLocal(l, r) =>  // COMEX_move_to_COMEX
      && l < n
      && exists free' ::
        && TakeResult(w.nodes[l].free, 0, r, free')
        && w' == w.(nodes := w.nodes[l := w.nodes[l].(free := free',
                                                              local := w.nodes[l].local + if r >= 0 then {r} else {})])
    case ReleaseLocal(l, p) =>  // COMEX_free_page of a local page
      && l < n && p in w.nodes[l].local
      && w' == w.(nodes := w.nodes[l := w.nodes[l].(free := w.nodes[l].free + {p}, local := w.nodes[l].local - {p})])
  }

  /** Each page of each pool is in exactly one place, and no other page is anywhere. */
  ghost predicate Owned(w: World, pools: seq<set<nat>>) {
    && Shaped(w) && |pools| == |w.nodes|
    && forall l, p: nat | 0 <= l < |w.nodes| :: Places(w, l, p) == Here(pools[l], p)
  }

  // ----- sums under updates -----

  lemma {:induction false} BorrowedUpdate(nodes: seq<Node>, b: nat, n': Node, l: nat, p: nat)
    requires b < |nodes| && l < |n'.accounts| && forall n | n in nodes :: l < |n.accounts|
    ensures forall n | n in nodes[b := n'] :: l < |n.accounts|
    ensures BorrowedCount(nodes[b := n'], l, p) + AccountCount(nodes[b].accounts[l], p)
         == BorrowedCount(nodes, l, p) + AccountCount(n'.accounts[l], p)
    decreases |nodes|
  {
    var nodes' := nodes[b := n'];
    if b == 0 {
      assert nodes'[1..] == nodes[1..];
    } else {
      assert nodes'[1..] == nodes[1..][b - 1 := n'];
      BorrowedUpdate(nodes[1..], b - 1, n', l, p);
    }
  }

  lemma {:induction false} FlightConcat(a: seq<Msg>, b: seq<Msg>, l: nat, p: nat)
    ensures FlightCount(a + b, l, p) == FlightCount(a, l, p) + FlightCount(b, l, p)
    decreases |a|
  {
    if a == [] {
      assert a + b == b;
    } else {
      FlightConcat(a[1..], b, l, p);
      assert (a + b)[1..] == a[1..] + b;
    }
  }

  lemma FlightSend(net: seq<Msg>, m: Msg, l: nat, p: nat)
    ensures FlightCount(net + [m], l, p) == FlightCount(net, l, p) + MsgCount(m, l, p)
  {
    FlightConcat(net, [m], l, p);
    assert [m][1..] == [];
  }

  lemma FlightTake(net: seq<Msg>, i: nat, l: nat, p: nat)
    requires i < |net|
    ensures FlightCount(net, l, p) == FlightCount(Without(net, i), l, p) + MsgCount(net[i], l, p)
  {
    FlightConcat(net[..i], net[i + 1..], l, p);
    FlightConcat(net[..i], [net[i]] + net[i + 1..], l, p);
    assert net == net[..i] + ([net[i]] + net[i + 1..]);
    assert ([net[i]] + net[i + 1..])[1..] == net[i + 1..];
  }

  lemma {:induction false} QueueConcat(a: seq<Group>, b: seq<Group>, p: nat)
    ensures QueueCount(a + b, p) == QueueCount(a, p) + QueueCount(b, p)
    decreases |a|
  {
    if a == [] {
      assert a + b == b;
    } else {
      QueueConcat(a[1..], b, p);
      assert (a + b)[1..] == a[1..] + b;
    }
  }

  lemma ArriveCount(queue: seq<Group>, pageNO: nat, size: nat, p: nat)
    ensures QueueCount(Arrive(queue, pageNO, size), p) == QueueCount(queue, p) + RunCount(Run(pageNO, Pow2(size)), p)
  {
    var g := Group(pageNO, pageNO + Pow2(size) - 1);
    QueueConcat(queue, [g], p);
    assert [g][1..] == [];
  }

  lemma PopCount(queue: seq<Group>, p: nat)
    requires queue != [] && NonEmpty(queue[0])
    ensures QueueCount(queue, p) == QueueCount(Pop(queue), p) + if p == queue[0].pageStart then 1 else 0
  {
    var g := queue[0];
    if g.pageStart + 1 <= g.pageEnd {
      assert Pop(queue)[1..] == queue[1..];
    }
  }

  // ----- shapes under updates -----

  lemma SetNodeShaped(w: World, b: nat, n': Node, net': seq<Msg>)
    requires Shaped(w) && b < |w.nodes| && NodeShaped(n', |w.nodes|)
    requires forall m | m in net' :: MsgShaped(m, |w.nodes|)
    ensures Shaped(World(w.nodes[b := n'], net'))
  {
    var nodes' := w.nodes[b := n'];
    forall n | n in nodes'
      ensures NodeShaped(n, |nodes'|)
    {
      var i :| 0 <= i < |nodes'| && nodes'[i] == n;
      assert i != b ==> n == w.nodes[i];
    }
  }

  lemma SetAccountShaped(w: World, b: nat, l: nat, a: Account, net': seq<Msg>)
    requires Shaped(w) && b < |w.nodes| && l < |w.nodes|
    requires WellFormedQueue(a.queue) && WellFormedBatch(a.batch)
    requires forall m | m in net' :: MsgShaped(m, |w.nodes|)
    ensures |w.nodes[b].accounts| == |w.nodes|
    ensures Shaped(World(SetAccount(w.nodes, b, l, a), net'))
  {
    assert NodeShaped(w.nodes[b], |w.nodes|);
    var accounts' := w.nodes[b].accounts[l := a];
    forall c | c in accounts'
      ensures WellFormedQueue(c.queue) && WellFormedBatch(c.batch)
    {
      var i :| 0 <= i < |accounts'| && accounts'[i] == c;
      assert i != l ==> c == w.nodes[b].accounts[i] && c in w.nodes[b].accounts;
    }
    SetNodeShaped(w, b, w.nodes[b].(accounts := accounts'), net');
  }

  lemma AccountShaped(w: World, b: nat, l: nat)
    requires Shaped(w) && b < |w.nodes| && l < |w.nodes|
    ensures l < |w.nodes[b].accounts|
    ensures WellFormedQueue(w.nodes[b].accounts[l].queue) && WellFormedBatch(w.nodes[b].accounts[l].batch)
  {
    assert NodeShaped(w.nodes[b], |w.nodes|);
    assert w.nodes[b].accounts[l] in w.nodes[b].accounts;
  }

  lemma WithoutShaped(w: World, i: nat)
    requires Shaped(w) && i < |w.net|
    ensures MsgShaped(w.net[i], |w.nodes|)
    ensures forall m | m in Without(w.net, i) :: MsgShaped(m, |w.nodes|)
  {
    assert w.net[i] in w.net;
    forall m | m in Without(w.net, i)
      ensures m in w.net
    {}
  }

  // ----- effects of an update on the places of a page -----

  /** Replacing one account moves a page's places by the change of that account. */
  lemma AccountPlaces(w: World, b: nat, l: nat, a: Account, net': seq<Msg>, k: nat, p: nat)
    requires Shaped(w) && b < |w.nodes| && l < |w.nodes| && k < |w.nodes|
    requires l < |w.nodes[b].accounts|
    requires Shaped(World(SetAccount(w.nodes, b, l, a), net'))
    ensures Places(World(SetAccount(w.nodes, b, l, a), net'), k, p)
         == Places(w, k, p) + (if k == l then AccountCount(a, p) - AccountCount(w.nodes[b].accounts[l], p) else 0)
            + FlightCount(net', k, p) - FlightCount(w.net, k, p)
  {
    var n' := w.nodes[b].(accounts := w.nodes[b].accounts[l := a]);
    AllWide(w, k);
    AccountShaped(w, b, k);
    BorrowedUpdate(w.nodes, b, n', k, p);
  }

  /** Replacing one node's own sets moves a page's places by the change of those sets. */
  lemma NodePlaces(w: World, b: nat, free': set<nat>, local': set<nat>, net': seq<Msg>, k: nat, p: nat)
    requires Shaped(w) && b < |w.nodes| && k < |w.nodes|
    requires Shaped(World(w.nodes[b := w.nodes[b].(free := free', local := local')], net'))
    ensures Places(World(w.nodes[b := w.nodes[b].(free := free', local := local')], net'), k, p)
         == Places(w, k, p) + FlightCount(net', k, p) - FlightCount(w.net, k, p)
            + if k == b then Here(free', p) + Here(local', p)
                             - Here(w.nodes[b].free, p) - Here(w.nodes[b].local, p) else 0
  {
    var n' := w.nodes[b].(free := free', local := local');
    AllWide(w, k);
    AccountShaped(w, b, k);
    BorrowedUpdate(w.nodes, b, n', k, p);
  }

  lemma AllWide(w: World, k: nat)
    requires Shaped(w) && k < |w.nodes|
    ensures forall n | n in w.nodes :: k < |n.accounts|
  {
    assert forall n | n in w.nodes :: NodeShaped(n, |w.nodes|);
  }

  /** A page that one account, one message or one set holds is not held elsewhere. */
  lemma {:induction false} BorrowedAtLeast(nodes: seq<Node>, b: nat, l: nat, p: nat)
    requires b < |nodes| && forall n | n in nodes :: l < |n.accounts|
    ensures AccountCount(nodes[b].accounts[l], p) <= BorrowedCount(nodes, l, p)
    decreases |nodes|
  {
    if b == 0 {
    } else {
      BorrowedAtLeast(nodes[1..], b - 1, l, p);
    }
  }

  lemma OnlyThere(w: World, pools: seq<set<nat>>, b: nat, l: nat, p: nat)
    requires Owned(w, pools) && b < |w.nodes| && l < |w.nodes|
    ensures l < |w.nodes[b].accounts|
    ensures AccountCount(w.nodes[b].accounts[l], p) + Here(w.nodes[l].free, p) + Here(w.nodes[l].local, p)
            + FlightCount(w.net, l, p) <= 1
  {
    AllWide(w, l);
    assert w.nodes[b] in w.nodes;
    BorrowedAtLeast(w.nodes, b, l, p);
    assert Places(w, l, p) <= 1;
  }

  // ----- every step keeps ownership -----

  lemma RequestKeeps(w: World, pools: seq<set<nat>>, b: nat, l: nat, w': World, refill: nat)
    requires Owned(w, pools) && Next(w, Request(b, l), w', refill)
    ensures Owned(w', pools)
  {
    forall k, p: nat | 0 <= k < |w.nodes|
      ensures Places(w', k, p) == Here(pools[k], p)
    {
      FlightSend(w.net, Rqst(b, l, refill), k, p);
      assert Places(w, k, p) == Here(pools[k], p);
    }
  }

  lemma TryKeeps(w: World, pools: seq<set<nat>>, i: nat, pageNO: int, w': World, refill: nat)
    requires Owned(w, pools) && Next(w, Try(i, pageNO), w', refill)
    ensures Owned(w', pools)
  {
    var m := w.net[i];
    WithoutShaped(w, i);
    var n := w.nodes[m.dst];
    var free' :| TakeResult(n.free, m.order, pageNO, free')
      && w' == World(w.nodes[m.dst := n.(free := free')], Without(w.net, i) + [Tried(m, pageNO)]);
    assert NodeShaped(n, |w.nodes|);
    assert n.(free := free') == n.(free := free', local := n.local);
    SetNodeShaped(w, m.dst, n.(free := free'), w'.net);
    forall k, p: nat | 0 <= k < |w.nodes|
      ensures Places(w', k, p) == Here(pools[k], p)
    {
      FlightTake(w.net, i, k, p);
      FlightSend(Without(w.net, i), Tried(m, pageNO), k, p);
      NodePlaces(w, m.dst, free', n.local, w'.net, k, p);
      assert Places(w, k, p) == Here(pools[k], p);
      TakeCount(n.free, m.order, pageNO, free', p);
    }
  }

  /** The block that was taken leaves the free pages, and is the block the reply names. */
  lemma TakeCount(free: set<nat>, order: nat, pageNO: int, free': set<nat>, p: nat)
    requires TakeResult(free, order, pageNO, free')
    ensures Here(free, p) == Here(free', p) + if pageNO >= 0 then RunCount(Run(pageNO, Pow2(order)), p) else 0
  {
    if pageNO >= 0 {
      assert p in Pages(Block(pageNO, order)) <==> RunCount(Run(pageNO, Pow2(order)), p) == 1;
    }
  }

  lemma ReceiveKeeps(w: World, pools: seq<set<nat>>, i: nat, w': World, refill: nat)
    requires Owned(w, pools) && Next(w, Receive(i), w', refill)
    ensures Owned(w', pools)
  {
    var m := w.net[i];
    WithoutShaped(w, i);
    AccountShaped(w, m.dst, m.src);
    var a := w.nodes[m.dst].accounts[m.src];
    var a' := a.(queue := if m.pageNO >= 0 then Arrive(a.queue, m.pageNO, m.size) else a.queue);
    if m.pageNO >= 0 {
      ArriveAppends(a.queue, m.pageNO, m.size);
    }
    SetAccountShaped(w, m.dst, m.src, a', w'.net);
    forall k, p: nat | 0 <= k < |w.nodes|
      ensures Places(w', k, p) == Here(pools[k], p)
    {
      FlightTake(w.net, i, k, p);
      AccountPlaces(w, m.dst, m.src, a', w'.net, k, p);
      assert Places(w, k, p) == Here(pools[k], p);
      if m.pageNO >= 0 {
        ArriveCount(a.queue, m.pageNO, m.size, p);
      }
    }
  }

  lemma TakeKeeps(w: World, pools: seq<set<nat>>, b: nat, l: nat, w': World, refill: nat)
    requires Owned(w, pools) && Next(w, Take(b, l), w', refill)
    ensures Owned(w', pools)
  {
    AccountShaped(w, b, l);
    var a := w.nodes[b].accounts[l];
    var x := a.queue[0].pageStart;
    var a' := a.(queue := Pop(a.queue), inUse := a.inUse + {x});
    PopTakesFirst(a.queue);
    SetAccountShaped(w, b, l, a', w.net);
    assert NonEmpty(a.queue[0]);
    PopCount(a.queue, x);
    OnlyThere(w, pools, b, l, x);
    forall k, p: nat | 0 <= k < |w.nodes|
      ensures Places(w', k, p) == Here(pools[k], p)
    {
      PopCount(a.queue, p);
      AccountPlaces(w, b, l, a', w.net, k, p);
      assert Places(w, k, p) == Here(pools[k], p);
    }
  }

  lemma ReleaseKeeps(w: World, pools: seq<set<nat>>, b: nat, l: nat, x: nat, w': World, refill: nat)
    requires Owned(w, pools) && Next(w, Release(b, l, x), w', refill)
    ensures Owned(w', pools)
  {
    AccountShaped(w, b, l);
    var a := w.nodes[b].accounts[l];
    var r := ReleasePage(a.batch, x);
    var a' := a.(inUse := a.inUse - {x}, batch := r.batch);
    ReleaseConserves(a.batch, x, x);
    forall m | m in w'.net
      ensures MsgShaped(m, |w.nodes|)
    {}
    SetAccountShaped(w, b, l, a', w'.net);
    forall k, p: nat | 0 <= k < |w.nodes|
      ensures Places(w', k, p) == Here(pools[k], p)
    {
      ReleaseConserves(a.batch, x, p);
      AccountPlaces(w, b, l, a', w'.net, k, p);
      assert Places(w, k, p) == Here(pools[k], p);
      if r.sent != [] {
        FlightSend(w.net, Free(b, l, r.sent[0]), k, p);
      }
    }
  }

  /** In an owned world the runs of a message in flight are held: no page occurs twice in them and
      none is free, so the handler's counter checks cannot fail. */
  lemma FlightHeld(w: World, pools: seq<set<nat>>, i: nat)
    requires Owned(w, pools) && i < |w.net| && w.net[i].Free?
    ensures w.net[i].dst < |w.nodes| && RunsHeld(w.nodes[w.net[i].dst].free, w.net[i].runs)
    ensures RunsPages(w.net[i].runs) <= pools[w.net[i].dst]
  {
    WithoutShaped(w, i);
    var l, runs := w.net[i].dst, w.net[i].runs;
    forall p: nat
      ensures RunsCount(runs, p) + (if p in w.nodes[l].free then 1 else 0) <= 1
      ensures RunsCount(runs, p) <= Here(pools[l], p)
    {
      FlightTake(w.net, i, l, p);
      assert Places(w, l, p) == Here(pools[l], p);
    }
    CountsHeld(w.nodes[l].free, runs);
    forall p | p in RunsPages(runs)
      ensures p in pools[l]
    {
      CountIsMembership(runs, p);
    }
  }

  lemma {:induction false} SlotRunsAt(pageNO: seq<int>, count: seq<int>, i: nat, k: nat)
    requires |pageNO| == |count| && i <= k < |count|
    ensures |SlotRuns(pageNO, count, i)| == |count| - i
    ensures SlotRuns(pageNO, count, i)[k - i] == SlotRun(pageNO[k], count[k])
    decreases |count| - i
  {
    if i == k {
      SlotRunsLength(pageNO, count, i);
    } else {
      SlotRunsAt(pageNO, count, i + 1, k);
    }
  }

  lemma {:induction false} SlotRunsLength(pageNO: seq<int>, count: seq<int>, i: nat)
    requires |pageNO| == |count| && i <= |count|
    ensures |SlotRuns(pageNO, count, i)| == |count| - i
    decreases |count| - i
  {
    if i == |count| {
    } else {
      SlotRunsLength(pageNO, count, i + 1);
    }
  }

  lemma {:induction false} RunInPages(runs: seq<Run>, k: nat, p: nat)
    requires k < |runs| && p in RunPages(runs[k])
    ensures p in RunsPages(runs)
  {
    if k == 0 {
    } else {
      RunInPages(runs[1..], k - 1, p);
    }
  }

  /** A PAGE_FREE message in flight meets everything the handler HandlePageFree asks for, whatever
      arrays it travels in: every slot is inside the lender's pool of `total` pages, and its runs are
      held. */
  lemma FlightHandled(w: World, pools: seq<set<nat>>, i: nat, total: nat, pageNO: seq<int>, count: seq<int>)
    requires Owned(w, pools) && i < |w.net| && w.net[i].Free?
    requires w.net[i].dst < |pools| && pools[w.net[i].dst] <= Range(0, total)
    requires |pageNO| == |count| == MAX_FREE && SlotRuns(pageNO, count, 0) == w.net[i].runs
    ensures w.net[i].dst < |w.nodes| && RunsHeld(w.nodes[w.net[i].dst].free, SlotRuns(pageNO, count, 0))
    ensures forall k | 0 <= k < MAX_FREE :: SlotFits(total, pageNO[k], count[k])
  {
    FlightHeld(w, pools, i);
    WithoutShaped(w, i);
    var runs := w.net[i].runs;
    forall k | 0 <= k < MAX_FREE
      ensures SlotFits(total, pageNO[k], count[k])
    {
      SlotRunsAt(pageNO, count, 0, k);
      var r := runs[k];
      assert r in runs && 1 <= r.count;
      RunInPages(runs, k, r.start + r.count - 1);
    }
  }

  /** Freeing the front block takes its pages off the runs, and leaves runs of the same kind. */
  lemma FrontCount(runs: seq<Run>, p: nat)
    requires WellFormedBatch(runs) && runs != [] && runs[0].count > 0
    ensures WellFormedBatch(RunsAfter(runs)) && WellFormed(FrontBlock(runs[0]))
    ensures RunsCount(runs, p) == RunsCount(RunsAfter(runs), p) + Here(Pages(FrontBlock(runs[0])), p)
  {
    var r := runs[0];
    GreedyFits(r.start, r.count);
    var size := Pow2(FrontBlock(r).order);
    var rest := Run(r.start + size, r.count - size);
    assert r in runs && forall x | x in runs[1..] :: x in runs;
    assert RunCount(r, p) == RunCount(rest, p) + Here(Pages(FrontBlock(r)), p);
    if size != r.count {
      assert RunsAfter(runs)[1..] == runs[1..];
    }
  }

  /** The block the handler of a message in flight frees next is held, whatever was done since its last
      one, and lies in the lender's pool. */
  lemma FrontHeld(w: World, pools: seq<set<nat>>, i: nat)
    requires Owned(w, pools) && i < |w.net| && w.net[i].Free? && w.net[i].runs != []
    ensures w.net[i].dst < |w.nodes| && w.net[i].runs[0].count > 0
    ensures var b := FrontBlock(w.net[i].runs[0]);
      WellFormed(b) && Pages(b) !! w.nodes[w.net[i].dst].free && Pages(b) <= pools[w.net[i].dst]
  {
    WithoutShaped(w, i);
    RunsPositive(w.net[i]);
    FlightHeld(w, pools, i);
    var runs := w.net[i].runs;
    FrontCount(runs, 0);
    forall p: nat | p in Pages(FrontBlock(runs[0]))
      ensures p in RunPages(runs[0])
    {
      FrontCount(runs, p);
      GreedyFits(runs[0].start, runs[0].count);
    }
  }

  lemma LeftOverCount(m: Msg, l: nat, p: nat)
    requires m.Free? && WellFormedBatch(m.runs) && m.runs != [] && m.runs[0].count > 0
    ensures forall x | x in LeftOver(m) :: x.Free? && x.src == m.src && x.dst == m.dst && WellFormedBatch(x.runs)
    ensures MsgCount(m, l, p) ==
      FlightCount(LeftOver(m), l, p) + if m.dst == l then Here(Pages(FrontBlock(m.runs[0])), p) else 0
  {
    FrontCount(m.runs, p);
    if LeftOver(m) != [] {
      assert LeftOver(m)[1..] == [];
    }
  }

  lemma ReclaimKeeps(w: World, pools: seq<set<nat>>, i: nat, w': World, refill: nat)
    requires Owned(w, pools) && Next(w, Reclaim(i), w', refill)
    ensures Owned(w', pools)
  {
    WithoutShaped(w, i);
    var m := w.net[i];
    if m.runs == [] {
      forall k, p: nat | 0 <= k < |w.nodes|
        ensures Places(w', k, p) == Here(pools[k], p)
      {
        FlightTake(w.net, i, k, p);
        assert Places(w, k, p) == Here(pools[k], p);
      }
    } else {
      FrontHeld(w, pools, i);
      ReclaimFront(w, pools, i, w');
    }
  }

  lemma ReclaimFront(w: World, pools: seq<set<nat>>, i: nat, w': World)
    requires Owned(w, pools) && i < |w.net| && w.net[i].Free? && w.net[i].runs != [] && w.net[i].runs[0].count > 0
    requires MsgShaped(w.net[i], |w.nodes|) && forall x | x in Without(w.net, i) :: MsgShaped(x, |w.nodes|)
    requires Pages(FrontBlock(w.net[i].runs[0])) !! w.nodes[w.net[i].dst].free
    requires var m := w.net[i];
      var free' := w.nodes[m.dst].free + Pages(FrontBlock(m.runs[0]));
      w' == World(w.nodes[m.dst := w.nodes[m.dst].(free := free')], Without(w.net, i) + LeftOver(m))
    ensures Owned(w', pools)
  {
    var m := w.net[i];
    var n := w.nodes[m.dst];
    var free' := n.free + Pages(FrontBlock(m.runs[0]));
    assert NodeShaped(n, |w.nodes|);
    assert n.(free := free') == n.(free := free', local := n.local);
    LeftOverCount(m, 0, 0);
    SetNodeShaped(w, m.dst, n.(free := free'), w'.net);
    forall k, p: nat | 0 <= k < |w.nodes|
      ensures Places(w', k, p) == Here(pools[k], p)
    {
      FlightTake(w.net, i, k, p);
      FlightConcat(Without(w.net, i), LeftOver(m), k, p);
      LeftOverCount(m, k, p);
      NodePlaces(w, m.dst, free', n.local, w'.net, k, p);
      assert Places(w, k, p) == Here(pools[k], p);
    }
  }

  /** The front block of a message, and what is left of the message without it. */
  lemma FrontMeans(m: Msg) returns (k: nat)
    requires m.Free? && m.runs != [] && m.runs[0].count > 0
    ensures var r := m.runs[0];
      && k <= TOP && FrontBlock(r) == Block(r.start, k)
      && Pow2(k) <= r.count && Aligned(r.start, k)
      && (forall j | k < j <= TOP :: !(Pow2(j) <= r.count && Aligned(r.start, j)))
      && LeftOver(m) ==
           if Pow2(k) < r.count then [Free(m.src, m.dst, [Run(r.start + Pow2(k), r.count - Pow2(k))] + m.runs[1..])]
           else if |m.runs| > 1 then [Free(m.src, m.dst, m.runs[1..])] else []
  {
    var r := m.runs[0];
    k := Greedy(r.start, r.count, TOP);
    GreedyFits(r.start, r.count);
    GreedyIsLargest(r.start, r.count, TOP);
    assert RunsAfter(m.runs) == (if Pow2(k) == r.count then [] else [Run(r.start + Pow2(k), r.count - Pow2(k))])
                                + m.runs[1..];
    forall j | k < j <= TOP
      ensures !(Pow2(j) <= r.count && Aligned(r.start, j))
    {
      assert !Fits(r.start, r.count, j);
    }
  }

  lemma ReclaimNet(w: World, i: nat, w': World, refill: nat)
    requires Shaped(w) && Next(w, Reclaim(i), w', refill) && w.net[i].runs != []
    ensures w.net[i].runs[0].count > 0 && w.net[i].dst < |w.nodes| == |w'.nodes|
    ensures var m := w.net[i];
      && w'.nodes[m.dst].free == w.nodes[m.dst].free + Pages(FrontBlock(m.runs[0]))
      && w'.net == Without(w.net, i) + LeftOver(m)
  {
    WithoutShaped(w, i);
    RunsPositive(w.net[i]);
  }

  /** One free of the handler: the largest aligned block that fits at the front of the first run. */
  lemma ReclaimLeaves(w: World, i: nat, w': World, refill: nat) returns (k: nat)
    requires Shaped(w) && Next(w, Reclaim(i), w', refill) && w.net[i].runs != []
    ensures w.net[i].dst < |w.nodes| == |w'.nodes| && k <= TOP
    ensures var m, r := w.net[i], w.net[i].runs[0];
      && Pow2(k) <= r.count && Aligned(r.start, k)
      && (forall j | k < j <= TOP :: !(Pow2(j) <= r.count && Aligned(r.start, j)))
      && w'.nodes[m.dst].free == w.nodes[m.dst].free + Range(r.start, Pow2(k))
      && w'.net == Without(w.net, i) +
           if Pow2(k) < r.count then [Free(m.src, m.dst, [Run(r.start + Pow2(k), r.count - Pow2(k))] + m.runs[1..])]
           else if |m.runs| > 1 then [Free(m.src, m.dst, m.runs[1..])] else []
  {
    ReclaimNet(w, i, w', refill);
    k := FrontMeans(w.net[i]);
  }

  lemma LocalKeeps(w: World, pools: seq<set<nat>>, l: nat, free': set<nat>, local': set<nat>)
    requires Owned(w, pools) && l < |w.nodes|
    requires forall p: nat :: Here(free', p) + Here(local', p) == Here(w.nodes[l].free, p) + Here(w.nodes[l].local, p)
    ensures Owned(w.(nodes := w.nodes[l := w.nodes[l].(free := free', local := local')]), pools)
  {
    var n' := w.nodes[l].(free := free', local := local');
    var w' := w.(nodes := w.nodes[l := n']);
    assert NodeShaped(w.nodes[l], |w.nodes|);
    SetNodeShaped(w, l, n', w.net);
    forall k, p: nat | 0 <= k < |w.nodes|
      ensures Places(w', k, p) == Here(pools[k], p)
    {
      NodePlaces(w, l, free', local', w.net, k, p);
      assert Places(w, k, p) == Here(pools[k], p);
      assert Here(free', p) + Here(local', p) == Here(w.nodes[l].free, p) + Here(w.nodes[l].local, p);
    }
  }

  lemma TakeLocalKeeps(w: World, pools: seq<set<nat>>, l: nat, r: int, w': World, refill: nat)
    requires Owned(w, pools) && Next(w, TakeLocal(l, r), w', refill)
    ensures Owned(w', pools)
  {
    var n := w.nodes[l];
    var free' :| TakeResult(n.free, 0, r, free')
      && w' == w.(nodes := w.nodes[l := n.(free := free', local := n.local + if r >= 0 then {r} else {})]);
    if r >= 0 {
      SingletonPage(r);
    }
    forall p: nat
      ensures Here(free', p) + Here(n.local + if r >= 0 then {r} else {}, p) == Here(n.free, p) + Here(n.local, p)
    {
      OnlyThere(w, pools, l, l, p);
    }
    LocalKeeps(w, pools, l, free', n.local + if r >= 0 then {r} else {});
  }

  lemma ReleaseLocalKeeps(w: World, pools: seq<set<nat>>, l: nat, x: nat, w': World, refill: nat)
    requires Owned(w, pools) && Next(w, ReleaseLocal(l, x), w', refill)
    ensures Owned(w', pools)
  {
    var n := w.nodes[l];
    OnlyThere(w, pools, l, l, x);
    LocalKeeps(w, pools, l, n.free + {x}, n.local - {x});
  }

  /** Every step of every node keeps every page of every pool in exactly one place. */
  lemma StepKeeps(w: World, pools: seq<set<nat>>, act: Action, w': World, refill: nat)
    requires Owned(w, pools) && Next(w, act, w', refill)
    ensures Owned(w', pools)
  {
    match act
    case Request(b, l) => RequestKeeps(w, pools, b, l, w', refill);
    case Try(i, pageNO) => TryKeeps(w, pools, i, pageNO, w', refill);
    case Receive(i) => ReceiveKeeps(w, pools, i, w', refill);
    case Take(b, l) => TakeKeeps(w, pools, b, l, w', refill);
    case Release(b, l, p) => ReleaseKeeps(w, pools, b, l, p, w', refill);
    case Reclaim(i) => ReclaimKeeps(w, pools, i, w', refill);
    case TakeLocal(l, r) => TakeLocalKeeps(w, pools, l, r, w', refill);
    case ReleaseLocal(l, p) => ReleaseLocalKeeps(w, pools, l, p, w', refill);
  }

  // ----- whole runs -----

  ghost predicate IsRun(ws: seq<World>, acts: seq<Action>, refill: nat) {
    && |ws| == |acts| + 1
    && forall i | 0 <= i < |acts| :: Shaped(ws[i]) && Next(ws[i], acts[i], ws[i + 1], refill)
  }

  /** Single ownership holds in every world of every run, whatever the steps and their order. */
  lemma {:induction false} RunKeeps(ws: seq<World>, acts: seq<Action>, pools: seq<set<nat>>, refill: nat, i: nat)
    requires IsRun(ws, acts, refill) && Owned(ws[0], pools) && i < |ws|
    ensures Owned(ws[i], pools)
    decreases i
  {
    if i == 0 {
    } else {
      RunKeeps(ws, acts, pools, refill, i - 1);
      StepKeeps(ws[i - 1], pools, acts[i - 1], ws[i], refill);
    }
  }

  // ----- a request is answered as COMEX_pages_request answers it -----

  lemma StepRefusals(w: World, act: Action, w': World, refill: nat)
    requires Shaped(w) && Next(w, act, w', refill)
    requires forall m | m in w.net && m.Rply? && m.pageNO < 0 :: m.pageNO == -1 && m.size <= 5
    ensures forall m | m in w'.net && m.Rply? && m.pageNO < 0 :: m.pageNO == -1 && m.size <= 5
  {
    match act
    case Request(_, _) =>
    case Try(i, _) => WithoutShaped(w, i);
    case Receive(i) => WithoutShaped(w, i);
    case Take(_, _) =>
    case Release(_, _, _) =>
    case Reclaim(i) =>
      WithoutShaped(w, i);
      if w.net[i].runs != [] {
        RunsPositive(w.net[i]);
        LeftOverCount(w.net[i], 0, 0);
      }
    case TakeLocal(_, _) =>
    case ReleaseLocal(_, _) =>
  }

  /** No lender gives up early: a refusal is only sent after the last order, 5 or below, was tried. */
  lemma {:induction false} RunRefusals(ws: seq<World>, acts: seq<Action>, pools: seq<set<nat>>, refill: nat, i: nat)
    requires IsRun(ws, acts, refill) && Fresh(ws[0], pools) && i < |ws|
    ensures forall m | m in ws[i].net && m.Rply? && m.pageNO < 0 :: m.pageNO == -1 && m.size <= 5
    decreases i
  {
    if i == 0 {
    } else {
      RunRefusals(ws, acts, pools, refill, i - 1);
      StepRefusals(ws[i - 1], acts[i - 1], ws[i], refill);
    }
  }

  /** The tries of one request, each on the message the one before it left, with nothing in between. */
  ghost predicate TryRun(ws: seq<World>, places: seq<nat>, answers: seq<int>, refill: nat, src: nat, dst: nat) {
    && |ws| == |places| + 1 == |answers| + 1 && |places| > 0
    && (forall k | 0 <= k < |places| :: Shaped(ws[k]) && Next(ws[k], Try(places[k], answers[k]), ws[k + 1], refill))
    && places[0] < |ws[0].net| && ws[0].net[places[0]] == Rqst(src, dst, refill)
    && forall k | 1 <= k < |places| :: places[k] + 1 == |ws[k].net|
  }

  /** One try: what it leaves at the end of the net. */
  lemma TryLeaves(w: World, i: nat, pageNO: int, w': World, refill: nat)
    requires Shaped(w) && Next(w, Try(i, pageNO), w', refill)
    ensures w.net[i].dst < |w.nodes| == |w'.nodes| && w'.net != []
    ensures var m, free, free' := w.net[i], w.nodes[w.net[i].dst].free, w'.nodes[w.net[i].dst].free;
      && w'.net[|w'.net| - 1] ==
         (if pageNO < 0 && m.order > 5 then Rqst(m.src, m.dst, m.order - 1) else Rply(m.dst, m.src, pageNO, m.order))
      && (pageNO < 0 <==> !HasRun(free, m.order))
      && (pageNO < 0 ==> pageNO == -1 && free' == free)
      && (pageNO >= 0 ==>
            WellFormed(Block(pageNO, m.order)) && Pages(Block(pageNO, m.order)) <= free
            && free' == free - Pages(Block(pageNO, m.order)))
  {
    WithoutShaped(w, i);
  }

  /** Tries without another step in between end in the reply of COMEX_pages_request: a free block of the
      largest order available from the refill order down to 5, or -1 when there is none. */
  lemma {:induction false} TriesGrant(ws: seq<World>, places: seq<nat>, answers: seq<int>, refill: nat, src: nat,
                                      dst: nat)
    requires TryRun(ws, places, answers, refill, src, dst)
    ensures dst < |ws[0].nodes| == |ws[|places|].nodes| && ws[|places|].net != []
    ensures var n := |places|;
      var m, free, free' := ws[n].net[|ws[n].net| - 1], ws[0].nodes[dst].free, ws[n].nodes[dst].free;
      if m.Rply? then
        && m.src == dst && m.dst == src && m.size + n == refill + 1 && (m.size == refill || 5 <= m.size)
        && (forall j | m.size < j <= refill :: !HasRun(free, j))
        && (m.pageNO < 0 ==> m.pageNO == -1 && m.size <= 5 && !HasRun(free, m.size) && free' == free)
        && (m.pageNO >= 0 ==>
              && WellFormed(Block(m.pageNO, m.size)) && Pages(Block(m.pageNO, m.size)) <= free
              && free' == free - Pages(Block(m.pageNO, m.size)))
      else
        && 5 + n <= refill && m == Rqst(src, dst, refill - n) && free' == free
        && forall j | refill - n < j <= refill :: !HasRun(free, j)
    decreases |places|
  {
    var n := |places|;
    var last := ws[n - 1];
    if n == 1 {
      TryLeaves(last, places[0], answers[0], ws[1], refill);
    } else {
      TriesGrant(ws[..n], places[..n - 1], answers[..n - 1], refill, src, dst);
      TryLeaves(last, places[n - 1], answers[n - 1], ws[n], refill);
    }
  }

  /** A world in which nothing has been lent yet. */
  ghost predicate Fresh(w: World, pools: seq<set<nat>>) {
    && |pools| == |w.nodes| && w.net == []
    && forall l | 0 <= l < |w.nodes| ::
      && w.nodes[l].free == pools[l] && w.nodes[l].local == {}
      && w.nodes[l].accounts == seq(|w.nodes|, i => Account([], {}, []))
  }

  lemma FreshOwned(w: World, pools: seq<set<nat>>)
    requires Fresh(w, pools)
    ensures Owned(w, pools)
  {
    forall n | n in w.nodes
      ensures NodeShaped(n, |w.nodes|)
    {
      var l :| 0 <= l < |w.nodes| && w.nodes[l] == n;
    }
    forall l, p: nat | 0 <= l < |w.nodes|
      ensures Places(w, l, p) == Here(pools[l], p)
    {
      AllWide(w, l);
      NothingBorrowed(w.nodes, l, p);
    }
  }

  ghost predicate NothingHeld(a: Account) {
    a.queue == [] && a.inUse == {} && a.batch == []
  }

  lemma {:induction false} NothingBorrowed(nodes: seq<Node>, l: nat, p: nat)
    requires forall n | n in nodes :: l < |n.accounts| && NothingHeld(n.accounts[l])
    ensures BorrowedCount(nodes, l, p) == 0
    decreases |nodes|
  {
    if nodes == [] {
    } else {
      NothingBorrowed(nodes[1..], l, p);
    }
  }

  lemma {:induction false} BorrowedTwice(nodes: seq<Node>, b: nat, c: nat, l: nat, p: nat)
    requires b < c < |nodes| && forall n | n in nodes :: l < |n.accounts|
    ensures AccountCount(nodes[b].accounts[l], p) + AccountCount(nodes[c].accounts[l], p) <= BorrowedCount(nodes, l, p)
    decreases |nodes|
  {
    if b > 0 {
      BorrowedTwice(nodes[1..], b - 1, c - 1, l, p);
    } else {
      BorrowedAtLeast(nodes[1..], c - 1, l, p);
    }
  }

  /** No page is lent twice: a page some borrower uses is used, queued or about to be returned by no
      other borrower, is on no message, is not free and is not in the lender's own use. */
  lemma NeverLentTwice(w: World, pools: seq<set<nat>>, b: nat, l: nat, p: nat)
    requires Owned(w, pools) && b < |w.nodes| && l < |w.nodes| && p in AccountOf(w, b, l).inUse
    ensures p in pools[l] && p !in w.nodes[l].free && p !in w.nodes[l].local
    ensures QueueCount(AccountOf(w, b, l).queue, p) == 0 && RunsCount(AccountOf(w, b, l).batch, p) == 0
    ensures forall c | 0 <= c < |w.nodes| && c != b :: AccountCount(AccountOf(w, c, l), p) == 0
    ensures FlightCount(w.net, l, p) == 0
  {
    OnlyThere(w, pools, b, l, p);
    AllWide(w, l);
    assert Places(w, l, p) == Here(pools[l], p);
    BorrowedAtLeast(w.nodes, b, l, p);
    forall c | 0 <= c < |w.nodes| && c != b
      ensures AccountCount(AccountOf(w, c, l), p) == 0
    {
      if b < c {
        BorrowedTwice(w.nodes, b, c, l, p);
      } else {
        BorrowedTwice(w.nodes, c, b, l, p);
      }
    }
  }

  // ----- what is out when nothing moves -----

  /** No page of lender l is queued, in use or on a message.  Released pages may wait in batches. */
  ghost predicate Idle(w: World, l: nat) {
    && Shaped(w) && l < |w.nodes|
    && (forall b | 0 <= b < |w.nodes| :: AccountOf(w, b, l).queue == [] && AccountOf(w, b, l).inUse == {})
    && (forall m | m in w.net :: !CarriesPages(m, l))
  }

  /** The message carries pages of lender l. */
  predicate CarriesPages(m: Msg, l: nat) {
    match m
    case Rqst(_, _, _) => false
    case Rply(src, _, pageNO, _) => src == l && pageNO >= 0
    case Free(_, dst, _) => dst == l
  }

  /** The runs of all batches for lender l, borrower by borrower. */
  ghost function PendingRuns(nodes: seq<Node>, l: nat): seq<Run>
    requires forall n | n in nodes :: l < |n.accounts|
  {
    if nodes == [] then [] else nodes[0].accounts[l].batch + PendingRuns(nodes[1..], l)
  }

  ghost function Pending(w: World, l: nat): seq<Run>
    requires Shaped(w) && l < |w.nodes|
  {
    AllWide(w, l);
    PendingRuns(w.nodes, l)
  }

  lemma {:induction false} IdleFlight(net: seq<Msg>, l: nat, p: nat)
    requires forall m | m in net :: !CarriesPages(m, l)
    ensures FlightCount(net, l, p) == 0
    decreases |net|
  {
    if net == [] {
    } else {
      assert net[0] in net;
      IdleFlight(net[1..], l, p);
    }
  }

  lemma {:induction false} IdleBorrowed(nodes: seq<Node>, l: nat, p: nat)
    requires forall n | n in nodes :: l < |n.accounts| && n.accounts[l].queue == [] && n.accounts[l].inUse == {}
    ensures BorrowedCount(nodes, l, p) == RunsCount(PendingRuns(nodes, l), p)
    decreases |nodes|
  {
    if nodes == [] {
    } else {
      IdleBorrowed(nodes[1..], l, p);
      RunsCountConcat(nodes[0].accounts[l].batch, PendingRuns(nodes[1..], l), p);
    }
  }

  /** In an idle world every page of the pool is free, local, or pending in exactly one place. */
  lemma IdlePlaces(w: World, pools: seq<set<nat>>, l: nat, p: nat)
    requires Owned(w, pools) && Idle(w, l)
    ensures Here(w.nodes[l].free, p) + Here(w.nodes[l].local, p) + RunsCount(Pending(w, l), p) == Here(pools[l], p)
  {
    AllWide(w, l);
    forall n | n in w.nodes
      ensures n.accounts[l].queue == [] && n.accounts[l].inUse == {}
    {
      var b :| 0 <= b < |w.nodes| && w.nodes[b] == n;
      assert AccountOf(w, b, l).queue == [];
    }
    IdleBorrowed(w.nodes, l, p);
    IdleFlight(w.net, l, p);
    assert Places(w, l, p) == Here(pools[l], p);
  }

  /** When no page of a lender is queued, in use or on a message, the lender misses exactly its local
      pages and those that wait in the borrowers' batches, and no batch page is free. */
  lemma IdleFree(w: World, pools: seq<set<nat>>, l: nat)
    requires Owned(w, pools) && Idle(w, l)
    ensures w.nodes[l].free == pools[l] - w.nodes[l].local - RunsPages(Pending(w, l))
    ensures RunsHeld(w.nodes[l].free, Pending(w, l))
    ensures RunsPages(Pending(w, l)) <= pools[l] - w.nodes[l].local
  {
    var runs := Pending(w, l);
    forall p: nat
      ensures RunsCount(runs, p) + (if p in w.nodes[l].free then 1 else 0) <= 1
      ensures p in RunsPages(runs) <==> RunsCount(runs, p) == 1
      ensures Here(w.nodes[l].free, p) + Here(w.nodes[l].local, p) + RunsCount(runs, p) == Here(pools[l], p)
    {
      IdlePlaces(w, pools, l, p);
      CountIsMembership(runs, p);
    }
    CountsHeld(w.nodes[l].free, runs);
  }

  /** Every run of a batch holds a page, so the batches are empty exactly when no page is pending. */
  lemma {:induction false} PendingEmpty(nodes: seq<Node>, l: nat)
    requires forall n | n in nodes :: l < |n.accounts| && WellFormedBatch(n.accounts[l].batch)
    ensures RunsPages(PendingRuns(nodes, l)) == {} <==> forall b | 0 <= b < |nodes| :: nodes[b].accounts[l].batch == []
    decreases |nodes|
  {
    if nodes == [] {
    } else {
      var batch, rest := nodes[0].accounts[l].batch, PendingRuns(nodes[1..], l);
      PendingEmpty(nodes[1..], l);
      if batch == [] {
        assert batch + rest == rest;
        assert forall b | 0 <= b < |nodes| - 1 :: nodes[1..][b] == nodes[b + 1];
      } else {
        assert nodes[0] in nodes && batch[0] in batch;
        assert batch[0].start in RunPages((batch + rest)[0]);
        assert batch[0].start in RunsPages(batch + rest);
      }
    }
  }

  ghost predicate NothingPending(w: World, l: nat)
    requires Shaped(w) && l < |w.nodes|
  {
    forall b | 0 <= b < |w.nodes| :: AccountOf(w, b, l).batch == []
  }

  lemma PendingNothing(w: World, l: nat)
    requires Shaped(w) && l < |w.nodes|
    ensures RunsPages(Pending(w, l)) == {} <==> NothingPending(w, l)
  {
    AllWide(w, l);
    forall n | n in w.nodes
      ensures WellFormedBatch(n.accounts[l].batch)
    {
      var b :| 0 <= b < |w.nodes| && w.nodes[b] == n;
      AccountShaped(w, b, l);
    }
    PendingEmpty(w.nodes, l);
    assert forall b | 0 <= b < |w.nodes| :: AccountOf(w, b, l) == w.nodes[b].accounts[l];
  }

  /** The canonical form tells the free pages apart. */
  lemma CanonTells(a: set<nat>, b: set<nat>)
    ensures Canon(a) == Canon(b) <==> a == b
  {
    CanonIsReduced(a);
    CanonIsReduced(b);
  }

  /** The blocks a lender has when nothing of its pool is lent. */
  ghost function FullBlocks(w: World, pools: seq<set<nat>>, l: nat): set<Block>
    requires l < |w.nodes| && l < |pools|
  {
    Canon(pools[l] - w.nodes[l].local)
  }

  /** Exact condition for the round trip: in every world of every run in which no page of the lender is
      queued, in use or on a message, its blocks are, order by order, those of an unlent pool if and only
      if no released page waits in a batch. */
  lemma RoundTripIff(ws: seq<World>, acts: seq<Action>, pools: seq<set<nat>>, refill: nat, j: nat, l: nat)
    requires IsRun(ws, acts, refill) && Owned(ws[0], pools) && j < |ws| && Idle(ws[j], l)
    ensures |pools| == |ws[j].nodes|
    ensures Canon(ws[j].nodes[l].free) == FullBlocks(ws[j], pools, l) <==> NothingPending(ws[j], l)
  {
    RunKeeps(ws, acts, pools, refill, j);
    IdleFree(ws[j], pools, l);
    PendingNothing(ws[j], l);
    CanonTells(ws[j].nodes[l].free, pools[l] - ws[j].nodes[l].local);
  }

  /** Round trip: from every such world, freeing what waits in the batches as PAGE_FREE messages are
      handled gives the blocks of the unlent pool, however pages were split, reordered or merged into
      runs on the way. */
  lemma RoundTrip(ws: seq<World>, acts: seq<Action>, pools: seq<set<nat>>, refill: nat, j: nat, l: nat)
    requires IsRun(ws, acts, refill) && Owned(ws[0], pools) && j < |ws| && Idle(ws[j], l)
    ensures |pools| == |ws[j].nodes|
    ensures forall b | b in TileAll(Pending(ws[j], l)) :: b.order <= TOP
    ensures MergeAll(Canon(ws[j].nodes[l].free), TileAll(Pending(ws[j], l))) == FullBlocks(ws[j], pools, l)
  {
    RunKeeps(ws, acts, pools, refill, j);
    IdleFree(ws[j], pools, l);
    var free, runs := ws[j].nodes[l].free, Pending(ws[j], l);
    MessageFreesLikePages(free, runs);
    assert free + RunsPages(runs) == pools[l] - ws[j].nodes[l].local;
  }

  /** Two idle moments with the same local pages differ by what waits in the batches, and by nothing
      else. */
  lemma IdleTwice(ws: seq<World>, acts: seq<Action>, pools: seq<set<nat>>, refill: nat, i: nat, j: nat, l: nat)
    requires IsRun(ws, acts, refill) && Owned(ws[0], pools) && i < |ws| && j < |ws|
    requires Idle(ws[i], l) && Idle(ws[j], l) && ws[i].nodes[l].local == ws[j].nodes[l].local
    ensures Canon(ws[i].nodes[l].free) == Canon(ws[j].nodes[l].free) <==>
      RunsPages(Pending(ws[i], l)) == RunsPages(Pending(ws[j], l))
  {
    RunKeeps(ws, acts, pools, refill, i);
    RunKeeps(ws, acts, pools, refill, j);
    IdleFree(ws[i], pools, l);
    IdleFree(ws[j], pools, l);
    CanonTells(ws[i].nodes[l].free, ws[j].nodes[l].free);
  }

  // ----- no lender ever gets everything back -----

  /** Something of lender l is with borrower b. */
  ghost predicate Has(a: Account) {
    a.queue != [] || a.inUse != {} || a.batch != []
  }

  /** Something of lender l is out: with a borrower, or on its way to one. */
  ghost predicate Out(w: World, l: nat)
    requires Shaped(w) && l < |w.nodes|
  {
    || (exists b :: 0 <= b < |w.nodes| && Has(AccountOf(w, b, l)))
    || (exists m :: m in w.net && m.Rply? && m.src == l && m.pageNO >= 0)
  }

  lemma {:induction false} ReleaseLeavesBatch(runs: seq<Run>, p: nat)
    ensures Extend(runs, p).Some? ==> Extend(runs, p).value != []
    ensures ReleasePage(runs, p).batch != []
  {
  }

  lemma AccountAfter(w: World, b: nat, l: nat, a: Account, net': seq<Msg>, c: nat, k: nat)
    requires Shaped(w) && b < |w.nodes| && l < |w.nodes| && c < |w.nodes| && k < |w.nodes|
    requires l < |w.nodes[b].accounts|
    requires Shaped(World(SetAccount(w.nodes, b, l, a), net'))
    ensures AccountOf(World(SetAccount(w.nodes, b, l, a), net'), c, k) ==
      if c == b && k == l then a else AccountOf(w, c, k)
  {
    AccountShaped(w, c, k);
  }

  /** A page or a group that some borrower has stays out when one account changes and still has one. */
  lemma OutAfterAccount(w: World, b: nat, k: nat, a: Account, net': seq<Msg>, l: nat)
    requires Shaped(w) && b < |w.nodes| && k < |w.nodes| && l < |w.nodes| && k < |w.nodes[b].accounts|
    requires Shaped(World(SetAccount(w.nodes, b, k, a), net'))
    requires Has(a) || !Has(AccountOf(w, b, k))
    requires exists c :: 0 <= c < |w.nodes| && Has(AccountOf(w, c, l))
    ensures Out(World(SetAccount(w.nodes, b, k, a), net'), l)
  {
    var c :| 0 <= c < |w.nodes| && Has(AccountOf(w, c, l));
    AccountAfter(w, b, k, a, net', c, l);
    assert Has(AccountOf(World(SetAccount(w.nodes, b, k, a), net'), c, l));
  }

  /** An account that has something shows that something is out. */
  lemma OutByAccount(w: World, b: nat, l: nat, a: Account, net': seq<Msg>)
    requires Shaped(w) && b < |w.nodes| && l < |w.nodes| && l < |w.nodes[b].accounts| && Has(a)
    requires Shaped(World(SetAccount(w.nodes, b, l, a), net'))
    ensures Out(World(SetAccount(w.nodes, b, l, a), net'), l)
  {
    AccountAfter(w, b, l, a, net', b, l);
    assert Has(AccountOf(World(SetAccount(w.nodes, b, l, a), net'), b, l));
  }

  /** Nodes that keep their accounts and a net that keeps its grants keep what is out. */
  lemma OutAfterNode(w: World, b: nat, n': Node, net': seq<Msg>, l: nat)
    requires Shaped(w) && b < |w.nodes| && l < |w.nodes| && n'.accounts == w.nodes[b].accounts
    requires Shaped(World(w.nodes[b := n'], net'))
    requires forall m | m in w.net && m.Rply? :: m in net'
    requires Out(w, l)
    ensures Out(World(w.nodes[b := n'], net'), l)
  {
    var w' := World(w.nodes[b := n'], net');
    if c :| 0 <= c < |w.nodes| && Has(AccountOf(w, c, l)) {
      assert AccountOf(w', c, l) == AccountOf(w, c, l);
    } else {
      var m :| m in w.net && m.Rply? && m.src == l && m.pageNO >= 0;
      assert m in net';
    }
  }

  lemma WithoutKeeps(net: seq<Msg>, i: nat, m: Msg)
    requires i < |net| && m in net && m != net[i]
    ensures m in Without(net, i)
  {
    var j :| 0 <= j < |net| && net[j] == m;
    assert Without(net, i)[if j < i then j else j - 1] == m;
  }

  lemma OutAfterReceive(w: World, i: nat, w': World, refill: nat, l: nat)
    requires Shaped(w) && Shaped(w') && l < |w.nodes| && Next(w, Receive(i), w', refill) && Out(w, l)
    ensures Out(w', l)
  {
    var m := w.net[i];
    WithoutShaped(w, i);
    AccountShaped(w, m.dst, m.src);
    var a := AccountOf(w, m.dst, m.src);
    var a' := a.(queue := if m.pageNO >= 0 then Arrive(a.queue, m.pageNO, m.size) else a.queue);
    if exists c :: 0 <= c < |w.nodes| && Has(AccountOf(w, c, l)) {
      OutAfterAccount(w, m.dst, m.src, a', w'.net, l);
    } else if m.src == l && m.pageNO >= 0 {
      OutByAccount(w, m.dst, l, a', w'.net);
    } else {
      var g :| g in w.net && g.Rply? && g.src == l && g.pageNO >= 0;
      WithoutKeeps(w.net, i, g);
      assert g in w'.net;
    }
  }

  lemma OutAfterTake(w: World, b: nat, k: nat, w': World, refill: nat, l: nat)
    requires Shaped(w) && Shaped(w') && l < |w.nodes| && Next(w, Take(b, k), w', refill) && Out(w, l)
    ensures Out(w', l)
  {
    AccountShaped(w, b, k);
    var a := AccountOf(w, b, k);
    var x := a.queue[0].pageStart;
    var a' := a.(queue := Pop(a.queue), inUse := a.inUse + {x});
    assert x in a'.inUse;
    OutAfterChange(w, b, k, a', w.net, l);
  }

  lemma OutAfterRelease(w: World, b: nat, k: nat, p: nat, w': World, refill: nat, l: nat)
    requires Shaped(w) && Shaped(w') && l < |w.nodes| && Next(w, Release(b, k, p), w', refill) && Out(w, l)
    ensures Out(w', l)
  {
    AccountShaped(w, b, k);
    var a := AccountOf(w, b, k);
    var r := ReleasePage(a.batch, p);
    ReleaseLeavesBatch(a.batch, p);
    OutAfterChange(w, b, k, a.(inUse := a.inUse - {p}, batch := r.batch), w'.net, l);
  }

  lemma OutAfterChange(w: World, b: nat, k: nat, a: Account, net': seq<Msg>, l: nat)
    requires Shaped(w) && b < |w.nodes| && k < |w.nodes| && l < |w.nodes| && k < |w.nodes[b].accounts|
    requires Shaped(World(SetAccount(w.nodes, b, k, a), net')) && Has(a) && Out(w, l)
    requires forall m | m in w.net && m.Rply? :: m in net'
    ensures Out(World(SetAccount(w.nodes, b, k, a), net'), l)
  {
    if exists c :: 0 <= c < |w.nodes| && Has(AccountOf(w, c, l)) {
      OutAfterAccount(w, b, k, a, net', l);
    } else {
      var m :| m in w.net && m.Rply? && m.src == l && m.pageNO >= 0;
      assert m in net';
    }
  }

  /** No step brings the last page of a lender back: what is out stays out. */
  lemma StepKeepsOut(w: World, act: Action, w': World, refill: nat, l: nat)
    requires Shaped(w) && Shaped(w') && l < |w.nodes| && Next(w, act, w', refill) && Out(w, l)
    ensures |w'.nodes| == |w.nodes| && Out(w', l)
  {
    match act
    case Request(b, k) =>
      assert w.nodes == w.nodes[b := w.nodes[b]];
      OutAfterNode(w, b, w.nodes[b], w'.net, l);
    case Try(i, _) =>
      WithoutShaped(w, i);
      forall m | m in w.net && m.Rply?
        ensures m in w'.net
      {
        WithoutKeeps(w.net, i, m);
      }
      var k := w.net[i].dst;
      OutAfterNode(w, k, w'.nodes[k], w'.net, l);
    case Receive(i) =>
      OutAfterReceive(w, i, w', refill, l);
    case Take(b, k) =>
      OutAfterTake(w, b, k, w', refill, l);
    case Release(b, k, p) =>
      OutAfterRelease(w, b, k, p, w', refill, l);
    case Reclaim(i) =>
      WithoutShaped(w, i);
      forall m | m in w.net && m.Rply?
        ensures m in w'.net
      {
        WithoutKeeps(w.net, i, m);
      }
      var k := w.net[i].dst;
      assert w.net[i].runs == [] ==> w'.nodes == w.nodes[k := w.nodes[k]];
      OutAfterNode(w, k, w'.nodes[k], w'.net, l);
    case TakeLocal(k, _) =>
      OutAfterNode(w, k, w'.nodes[k], w'.net, l);
    case ReleaseLocal(k, _) =>
      OutAfterNode(w, k, w'.nodes[k], w'.net, l);
  }

  lemma {:induction false} OutForever(ws: seq<World>, acts: seq<Action>, pools: seq<set<nat>>,
                                      refill: nat, i: nat, j: nat,
                                      l: nat)
    requires IsRun(ws, acts, refill) && Owned(ws[0], pools) && i <= j < |ws|
    requires Shaped(ws[i]) && l < |ws[i].nodes| && Out(ws[i], l)
    ensures |ws[j].nodes| == |ws[i].nodes| && Shaped(ws[j]) && Out(ws[j], l)
    decreases j
  {
    if i == j {
    } else {
      OutForever(ws, acts, pools, refill, i, j - 1, l);
      RunKeeps(ws, acts, pools, refill, j);
      StepKeepsOut(ws[j - 1], acts[j - 1], ws[j], refill, l);
    }
  }

  /** In an idle world, something is out exactly when some batch is not empty. */
  lemma IdleOut(w: World, l: nat)
    requires Idle(w, l)
    ensures Out(w, l) <==> !NothingPending(w, l)
  {
    if Out(w, l) {
      if m :| m in w.net && m.Rply? && m.src == l && m.pageNO >= 0 {
        assert CarriesPages(m, l);
      }
    }
  }

  /** The round trip fails for every lender that ever lent: once a page of it was granted, its blocks are
      those of the unlent pool at no later idle moment, since the last released pages wait in a batch
      until another release pushes them out. */
  lemma NeverAllBack(ws: seq<World>, acts: seq<Action>, pools: seq<set<nat>>, refill: nat, i: nat, j: nat, l: nat)
    requires IsRun(ws, acts, refill) && Owned(ws[0], pools) && i <= j < |ws|
    requires Shaped(ws[i]) && l < |ws[i].nodes| && Out(ws[i], l) && Idle(ws[j], l)
    ensures |pools| == |ws[j].nodes|
    ensures Canon(ws[j].nodes[l].free) != FullBlocks(ws[j], pools, l)
  {
    OutForever(ws, acts, pools, refill, i, j, l);
    IdleOut(ws[j], l);
    RoundTripIff(ws, acts, pools, refill, j, l);
  }

  /** The worlds of the shortest such run: node 1 asks node 0, which has one page, for a page, gets it,
      takes it, and gives it back. */
  function LoanWorld(i: nat): World {
    var none := Account([], {}, []);
    var full, bare := Node({0}, {}, [none, none]), Node({}, {}, [none, none]);
    if i == 0 then World([full, bare], [])
    else if i == 1 then World([full, bare], [Rqst(1, 0, 0)])
    else if i == 2 then World([bare, bare], [Rply(0, 1, 0, 0)])
    else if i == 3 then World([bare, Node({}, {}, [Account([Group(0, 0)], {}, []), none])], [])
    else if i == 4 then World([bare, Node({}, {}, [Account([], {0}, []), none])], [])
    else World([bare, Node({}, {}, [Account([], {}, [Run(0, 1)]), none])], [])
  }

  function LoanStep(i: nat): Action {
    if i == 0 then Request(1, 0)
    else if i == 1 then Try(0, 0)
    else if i == 2 then Receive(0)
    else if i == 3 then Take(1, 0)
    else Release(1, 0, 0)
  }

  function LoanRun(): seq<World> {
    seq(6, i requires 0 <= i < 6 => LoanWorld(i))
  }

  function LoanSteps(): seq<Action> {
    seq(5, i requires 0 <= i < 5 => LoanStep(i))
  }

  /** In that run page 0 is out from the grant on; in its last world nothing is queued, in use or on a
      message, and the page still waits in the batch. */
  lemma LoanExample()
    ensures IsRun(LoanRun(), LoanSteps(), 0) && Fresh(LoanRun()[0], [{0}, {}])
    ensures Shaped(LoanRun()[2]) && Out(LoanRun()[2], 0) && Idle(LoanRun()[5], 0)
    ensures Canon(LoanRun()[5].nodes[0].free) != FullBlocks(LoanRun()[5], [{0}, {}], 0)
  {
    var ws, acts := LoanRun(), LoanSteps();
    forall i | 0 <= i < |acts|
      ensures Shaped(ws[i]) && Next(ws[i], acts[i], ws[i + 1], 0)
    {
      LoanNext(i);
    }
    LoanFresh();
    LoanOut();
    LoanIdle();
    FreshOwned(ws[0], [{0}, {}]);
    NeverAllBack(ws, acts, [{0}, {}], 0, 2, 5, 0);
  }

  lemma LoanShaped(i: nat)
    ensures Shaped(LoanWorld(i))
  {}

  lemma LoanNext(i: nat)
    requires i < 5
    ensures Shaped(LoanWorld(i)) && Next(LoanWorld(i), LoanStep(i), LoanWorld(i + 1), 0)
  {
    LoanShaped(i);
    if i == 0 {
      LoanRequest();
    } else if i == 1 {
      LoanTry();
    } else if i == 2 {
      LoanReceive();
    } else if i == 3 {
      LoanTake();
    } else {
      LoanRelease();
    }
  }

  lemma LoanOut()
    ensures Shaped(LoanWorld(2)) && Out(LoanWorld(2), 0)
  {
    LoanShaped(2);
    assert LoanWorld(2).net[0] in LoanWorld(2).net;
  }

  lemma LoanFresh()
    ensures Fresh(LoanWorld(0), [{0}, {}])
  {
    var none := Account([], {}, []);
    assert [none, none] == seq(2, i => none);
  }

  lemma LoanRequest()
    requires Shaped(LoanWorld(0))
    ensures Next(LoanWorld(0), Request(1, 0), LoanWorld(1), 0)
  {}

  lemma LoanTry()
    requires Shaped(LoanWorld(1))
    ensures Next(LoanWorld(1), Try(0, 0), LoanWorld(2), 0)
  {
    SingletonPage(0);
    var free, free': set<nat> := {0}, {};
    assert TakeResult(free, 0, 0, free') by {
      assert WellFormed(Block(0, 0)) && Pages(Block(0, 0)) <= free;
    }
    var w := LoanWorld(1);
    assert Without(w.net, 0) == [];
    assert Tried(w.net[0], 0) == Rply(0, 1, 0, 0);
    assert w.nodes[0 := w.nodes[0].(free := free')] == LoanWorld(2).nodes;
  }

  lemma SetSecond(n: Node, x: Account, y: Account, a: Account)
    ensures SetAccount([n, Node({}, {}, [x, y])], 1, 0, a) == [n, Node({}, {}, [a, y])]
  {
    assert [x, y][0 := a] == [a, y];
  }

  lemma LoanReceive()
    requires Shaped(LoanWorld(2))
    ensures Next(LoanWorld(2), Receive(0), LoanWorld(3), 0)
  {
    var w := LoanWorld(2);
    assert Without(w.net, 0) == [];
    assert Arrive([], 0, 0) == [Group(0, 0)];
    var a := Account([Group(0, 0)], {}, []);
    SetSecond(w.nodes[0], w.nodes[1].accounts[0], w.nodes[1].accounts[1], a);
  }

  lemma LoanTake()
    requires Shaped(LoanWorld(3))
    ensures Next(LoanWorld(3), Take(1, 0), LoanWorld(4), 0)
  {
    var w := LoanWorld(3);
    var a := w.nodes[1].accounts[0];
    assert Pop([Group(0, 0)]) == [] && a.inUse + {0} == {0};
    SetSecond(w.nodes[0], w.nodes[1].accounts[0], w.nodes[1].accounts[1], Account([], {0}, []));
  }

  lemma LoanRelease()
    requires Shaped(LoanWorld(4))
    ensures Next(LoanWorld(4), Release(1, 0, 0), LoanWorld(5), 0)
  {
    var w := LoanWorld(4);
    var a := w.nodes[1].accounts[0];
    assert ReleasePage([], 0) == Released([Run(0, 1)], []) && a.inUse - {0} == {};
    SetSecond(w.nodes[0], w.nodes[1].accounts[0], w.nodes[1].accounts[1], Account([], {}, [Run(0, 1)]));
  }

  lemma LoanIdle()
    ensures Idle(LoanWorld(5), 0)
  {
    LoanShaped(5);
  }
}

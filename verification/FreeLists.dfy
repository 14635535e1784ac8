/** The intrusive circular lists of the buddy allocator.

    Every page embeds a list node and every order has a list head.  A node is named by its place
    in the array of structures that holds it: page p is node p, and the head of order k is node
    `pages + k`.  The ghost sequences say which pages each list holds, in list order. */
module FreeLists {
  import opened Blocks

  /** A list as it is walked from its head back to its head. */
  ghost function Ring(head: nat, s: seq<nat>): seq<nat> {
    [head] + s + [head]
  }

  /** Neighbours on the ring point at each other. */
  ghost predicate Linked(next: seq<nat>, prev: seq<nat>, ring: seq<nat>) {
    && |next| == |prev|
    && (forall i | 0 <= i < |ring| :: ring[i] < |next|)
    && (forall i, j | 0 <= i < |ring| && j == i + 1 < |ring| :: next[ring[i]] == ring[j] && prev[ring[j]] == ring[i])
  }

  ghost predicate Distinct(s: seq<nat>) {
    forall i, j | 0 <= i < |s| && 0 <= j < |s| && s[i] == s[j] :: i == j
  }

  /** A closed walk that visits no node twice. */
  ghost predicate Closed(ring: seq<nat>) {
    && |ring| >= 2
    && ring[|ring| - 1] == ring[0]
    && (forall i, j | 0 <= i < |ring| - 1 && 0 <= j < |ring| - 1 && ring[i] == ring[j] :: i == j)
  }

  lemma InsertLinked(next: seq<nat>, prev: seq<nat>, ring: seq<nat>, i: nat, x: nat)
    requires Linked(next, prev, ring) && Closed(ring) && i < |ring| - 1
    requires x !in ring && x < |next|
    ensures var a, b := ring[i], ring[i + 1];
      Linked(next[x := b][a := x], prev[b := x][x := a], ring[..i + 1] + [x] + ring[i + 1..])
  {
    var a, b := ring[i], ring[i + 1];
    var next', prev' := next[x := b][a := x], prev[b := x][x := a];
    var ring' := ring[..i + 1] + [x] + ring[i + 1..];
    forall m, n | 0 <= m < |ring'| && n == m + 1 < |ring'|
      ensures next'[ring'[m]] == ring'[n] && prev'[ring'[n]] == ring'[m]
    {
      if m < i {
        assert ring'[m] == ring[m] && ring'[n] == ring[n];
      } else if m > i + 1 {
        assert ring'[m] == ring[m - 1] && ring'[n] == ring[n - 1];
      }
    }
  }

  lemma DeleteLinked(next: seq<nat>, prev: seq<nat>, ring: seq<nat>, i: nat)
    requires Linked(next, prev, ring) && Closed(ring) && 1 <= i < |ring| - 1
    ensures next[ring[i]] == ring[i + 1] && prev[ring[i]] == ring[i - 1]
    ensures ring[i] != ring[i - 1] && ring[i] != ring[i + 1]
    ensures var x, a, b := ring[i], ring[i - 1], ring[i + 1];
      Linked(next[a := b][x := x], prev[b := a][x := x], ring[..i] + ring[i + 1..])
  {
    var x, a, b := ring[i], ring[i - 1], ring[i + 1];
    var next', prev' := next[a := b][x := x], prev[b := a][x := x];
    var ring' := ring[..i] + ring[i + 1..];
    forall m, n | 0 <= m < |ring'| && n == m + 1 < |ring'|
      ensures next'[ring'[m]] == ring'[n] && prev'[ring'[n]] == ring'[m]
    {
      if n < i {
        assert ring'[m] == ring[m] && ring'[n] == ring[n];
      } else if m > i - 1 {
        assert ring'[m] == ring[m + 1] && ring'[n] == ring[n + 1];
      }
    }
  }

  /** A ring keeps its links when other nodes are written. */
  lemma OtherLinked(next: seq<nat>, prev: seq<nat>, next': seq<nat>, prev': seq<nat>, ring: seq<nat>, touched: set<nat>)
    requires Linked(next, prev, ring)
    requires |next'| == |next| && |prev'| == |prev|
    requires forall n | 0 <= n < |next| && n !in touched :: next'[n] == next[n] && prev'[n] == prev[n]
    requires forall i | 0 <= i < |ring| :: ring[i] !in touched
    ensures Linked(next', prev', ring)
  {}

  ghost predicate Avoids(ring: seq<nat>, touched: set<nat>) {
    forall n | n in ring :: n !in touched
  }

  /** Pages below the bound, each on at most one list and there once. */
  ghost predicate Apart(pages: nat, lists: seq<seq<nat>>) {
    && |lists| == COMEX_MAX_ORDER
    && (forall k, p | 0 <= k < |lists| && p in lists[k] :: p < pages)
    && (forall k | 0 <= k < |lists| :: Distinct(lists[k]))
    && (forall k, m, p | 0 <= k < |lists| && 0 <= m < |lists| && p in lists[k] && p in lists[m] :: k == m)
  }

  ghost predicate Listed(lists: seq<seq<nat>>, p: nat) {
    exists k | 0 <= k < |lists| :: p in lists[k]
  }

  /** The rings of the orders below n are linked. */
  ghost predicate AllLinked(next: seq<nat>, prev: seq<nat>, pages: nat, lists: seq<seq<nat>>, n: nat)
    requires n <= |lists|
  {
    n == 0 || (Linked(next, prev, Ring(pages + n - 1, lists[n - 1])) && AllLinked(next, prev, pages, lists, n - 1))
  }

  lemma {:induction false} LinkedAt(next: seq<nat>, prev: seq<nat>, pages: nat, lists: seq<seq<nat>>, n: nat, k: nat)
    requires k < n <= |lists| && AllLinked(next, prev, pages, lists, n)
    ensures Linked(next, prev, Ring(pages + k, lists[k]))
  {
    if k < n - 1 {
      LinkedAt(next, prev, pages, lists, n - 1, k);
    }
  }

  lemma RingClosed(pages: nat, lists: seq<seq<nat>>, k: nat)
    requires Apart(pages, lists) && k < |lists|
    ensures Closed(Ring(pages + k, lists[k]))
  {
    var s := lists[k];
    var ring := Ring(pages + k, s);
    forall i, j | 0 <= i < |ring| - 1 && 0 <= j < |ring| - 1 && ring[i] == ring[j]
      ensures i == j
    {
      assert i > 0 ==> ring[i] == s[i - 1] && s[i - 1] in s;
      assert j > 0 ==> ring[j] == s[j - 1] && s[j - 1] in s;
    }
  }

  lemma OnRing(head: nat, s: seq<nat>, n: nat)
    ensures n in Ring(head, s) <==> n == head || n in s
  {
    assert Ring(head, s)[0] == head;
    if i :| 0 <= i < |s| && s[i] == n {
      assert Ring(head, s)[i + 1] == n;
    }
  }

  /** Nodes of one ring, and unlisted pages, are on no other ring. */
  lemma RingsApart(pages: nat, lists: seq<seq<nat>>, k: nat, touched: set<nat>, m: nat)
    requires Apart(pages, lists) && k < |lists| && m < |lists| && m != k
    requires forall n | n in touched :: n in Ring(pages + k, lists[k]) || (n < pages && !Listed(lists, n))
    ensures Avoids(Ring(pages + m, lists[m]), touched)
  {
    forall n | n in Ring(pages + m, lists[m])
      ensures n !in touched
    {
      OnRing(pages + m, lists[m], n);
      OnRing(pages + k, lists[k], n);
    }
  }

  /** Rewriting list k with writes confined to its ring and unlisted pages keeps every ring linked. */
  lemma {:induction false} Relinked(next: seq<nat>, prev: seq<nat>, next': seq<nat>, prev': seq<nat>, pages: nat,
                                    lists: seq<seq<nat>>, k: nat, s: seq<nat>, touched: set<nat>, n: nat)
    requires Apart(pages, lists) && n <= |lists| && AllLinked(next, prev, pages, lists, n) && k < |lists|
    requires |next'| == |next| && |prev'| == |prev|
    requires forall n | 0 <= n < |next| && n !in touched :: next'[n] == next[n]
    requires forall n | 0 <= n < |prev| && n !in touched :: prev'[n] == prev[n]
    requires forall n | n in touched :: n in Ring(pages + k, lists[k]) || (n < pages && !Listed(lists, n))
    requires Linked(next', prev', Ring(pages + k, s))
    ensures AllLinked(next', prev', pages, lists[k := s], n)
    decreases n
  {
    if n == 0 {
    } else {
      var m := n - 1;
      Relinked(next, prev, next', prev', pages, lists, k, s, touched, m);
      if m != k {
        RingsApart(pages, lists, k, touched, m);
        OtherLinked(next, prev, next', prev', Ring(pages + m, lists[m]), touched);
      }
    }
  }

  lemma ApartAfterInsert(pages: nat, lists: seq<seq<nat>>, k: nat, i: nat, x: nat)
    requires Apart(pages, lists) && k < |lists| && i <= |lists[k]| && x < pages && !Listed(lists, x)
    ensures Apart(pages, lists[k := lists[k][..i] + [x] + lists[k][i..]])
  {
    var s := lists[k];
    var s' := s[..i] + [x] + s[i..];
    assert forall p :: p in s' <==> p in s || p == x by {
      assert s == s[..i] + s[i..];
    }
  }

  lemma DropOne(s: seq<nat>, i: nat)
    requires Distinct(s) && i < |s|
    ensures Distinct(s[..i] + s[i + 1..])
    ensures forall p :: p in s[..i] + s[i + 1..] <==> p in s && p != s[i]
  {
    var s' := s[..i] + s[i + 1..];
    forall p
      ensures p in s' <==> p in s && p != s[i]
    {
      assert s == s[..i] + [s[i]] + s[i + 1..];
    }
    forall a, b | 0 <= a < |s'| && 0 <= b < |s'| && s'[a] == s'[b]
      ensures a == b
    {
      assert s'[a] == s[if a < i then a else a + 1];
      assert s'[b] == s[if b < i then b else b + 1];
    }
  }

  lemma ApartAfterDelete(pages: nat, lists: seq<seq<nat>>, k: nat, i: nat)
    requires Apart(pages, lists) && k < |lists| && i < |lists[k]|
    ensures Apart(pages, lists[k := lists[k][..i] + lists[k][i + 1..]])
    ensures !Listed(lists[k := lists[k][..i] + lists[k][i + 1..]], lists[k][i])
    ensures forall p :: p in lists[k][..i] + lists[k][i + 1..] <==> p in lists[k] && p != lists[k][i]
  {
    var s := lists[k];
    var s' := s[..i] + s[i + 1..];
    DropOne(s, i);
    assert forall p | p in s' :: p in s && p != s[i];
  }

  lemma CutRing(head: nat, s: seq<nat>, i: nat)
    requires i <= |s|
    ensures Ring(head, s)[..i + 1] == [head] + s[..i] && Ring(head, s)[i + 1..] == s[i..] + [head]
  {}

  lemma InsertStep(next: seq<nat>, prev: seq<nat>, pages: nat, lists: seq<seq<nat>>, k: nat, i: nat, x: nat)
    requires Apart(pages, lists) && AllLinked(next, prev, pages, lists, |lists|)
    requires k < |lists| && i <= |lists[k]| && x < pages <= |next| && !Listed(lists, x)
    ensures var ring, s := Ring(pages + k, lists[k]), lists[k];
      var a, b, lists' := ring[i], ring[i + 1], lists[k := s[..i] + [x] + s[i..]];
      && a < |next| && b < |next| && |prev| == |next|
      && Apart(pages, lists') && AllLinked(next[x := b][a := x], prev[b := x][x := a], pages, lists', |lists'|)
  {
    var ring, s := Ring(pages + k, lists[k]), lists[k];
    var a, b, s' := ring[i], ring[i + 1], s[..i] + [x] + s[i..];
    LinkedAt(next, prev, pages, lists, |lists|, k);
    RingClosed(pages, lists, k);
    OnRing(pages + k, s, x);
    InsertLinked(next, prev, ring, i, x);
    CutRing(pages + k, s, i);
    assert Ring(pages + k, s') == ring[..i + 1] + [x] + ring[i + 1..];
    Relinked(next, prev, next[x := b][a := x], prev[b := x][x := a], pages, lists, k, s', {x, a, b}, |lists|);
    ApartAfterInsert(pages, lists, k, i, x);
  }

  lemma DeleteStep(next: seq<nat>, prev: seq<nat>, pages: nat, lists: seq<seq<nat>>, k: nat, i: nat)
    requires Apart(pages, lists) && AllLinked(next, prev, pages, lists, |lists|) && k < |lists| && i < |lists[k]|
    ensures var x, lists' := lists[k][i], lists[k := lists[k][..i] + lists[k][i + 1..]];
      && x < pages && x < |next| && |prev| == |next| && next[x] < |next| && prev[x] < |next|
      && Apart(pages, lists') && !Listed(lists', x)
      && AllLinked(next[prev[x] := next[x]][x := x], prev[next[x] := prev[x]][x := x], pages, lists', |lists'|)
  {
    var ring, s := Ring(pages + k, lists[k]), lists[k];
    var s' := s[..i] + s[i + 1..];
    LinkedAt(next, prev, pages, lists, |lists|, k);
    RingClosed(pages, lists, k);
    var x, a, b := ring[i + 1], ring[i], ring[i + 2];
    assert x == s[i] && s[i] in s;
    DeleteLinked(next, prev, ring, i + 1);
    CutRing(pages + k, s, i);
    CutRing(pages + k, s, i + 1);
    assert Ring(pages + k, s') == ring[..i + 1] + ring[i + 2..];
    Relinked(next, prev, next[a := b][x := x], prev[b := a][x := x], pages, lists, k, s', {x, a, b}, |lists|);
    ApartAfterDelete(pages, lists, k, i);
  }

  lemma {:induction false} EmptyLinked(next: seq<nat>, prev: seq<nat>, pages: nat, lists: seq<seq<nat>>, n: nat)
    requires n <= |lists| && pages + |lists| == |next| == |prev|
    requires forall k | 0 <= k < |lists| :: lists[k] == []
    requires forall i | 0 <= i < |next| :: next[i] == i && prev[i] == i
    ensures AllLinked(next, prev, pages, lists, n)
  {
    if n == 0 {
    } else {
      EmptyLinked(next, prev, pages, lists, n - 1);
    }
  }

  class ListTable {
    const pages: nat
    const next: array<nat>
    const prev: array<nat>
    ghost var lists: seq<seq<nat>>

    ghost predicate Valid()
      reads this, next, prev
    {
      && next.Length == prev.Length == pages + COMEX_MAX_ORDER
      && next != prev
      && Apart(pages, lists)
      && AllLinked(next[..], prev[..], pages, lists, |lists|)
    }

    constructor (pages: nat)
      ensures Valid() && this.pages == pages && fresh(next) && fresh(prev)
      ensures lists == seq(COMEX_MAX_ORDER, k => [])
    {
      this.pages := pages;
      next := new nat[pages + COMEX_MAX_ORDER](i => i);
      prev := new nat[pages + COMEX_MAX_ORDER](i => i);
      lists := seq(COMEX_MAX_ORDER, k => []);
      new;
      EmptyLinked(next[..], prev[..], pages, lists, |lists|);
    }

    /** COMEX__list_empty */
    method Empty(k: nat) returns (empty: bool)
      requires Valid() && k < COMEX_MAX_ORDER
      ensures empty <==> lists[k] == []
    {
      ghost var ring := Ring(pages + k, lists[k]);
      LinkedAt(next[..], prev[..], pages, lists, |lists|, k);
      assert next[..][ring[0]] == ring[1];
      assert lists[k] != [] ==> ring[1] in lists[k];
      empty := next[pages + k] == pages + k;
    }

    /** free_list.next */
    method First(k: nat) returns (p: nat)
      requires Valid() && k < COMEX_MAX_ORDER && lists[k] != []
      ensures p == lists[k][0]
    {
      ghost var ring := Ring(pages + k, lists[k]);
      LinkedAt(next[..], prev[..], pages, lists, |lists|, k);
      assert next[..][ring[0]] == ring[1];
      p := next[pages + k];
    }

    /** COMEX__list_add: put x between two neighbours of the list of order k. */
    method Insert(x: nat, before: nat, after: nat, ghost k: nat, ghost i: nat)
      requires Valid() && x < pages && !Listed(lists, x)
      requires k < COMEX_MAX_ORDER && i <= |lists[k]|
      requires before == Ring(pages + k, lists[k])[i] && after == Ring(pages + k, lists[k])[i + 1]
      modifies this, next, prev
      ensures Valid()
      ensures lists == old(lists)[k := old(lists[k])[..i] + [x] + old(lists[k])[i..]]
    {
      InsertStep(next[..], prev[..], pages, lists, k, i, x);
      prev[after] := x;
      next[x] := after;
      prev[x] := before;
      next[before] := x;
      assert next[..] == old(next[..])[x := after][before := x];
      assert prev[..] == old(prev[..])[after := x][x := before];
      lists := lists[k := lists[k][..i] + [x] + lists[k][i..]];
    }

    /** COMEX_list_add: x becomes the first page of order k. */
    method Add(x: nat, k: nat)
      requires Valid() && x < pages && !Listed(lists, x) && k < COMEX_MAX_ORDER
      modifies this, next, prev
      ensures Valid()
      ensures lists == old(lists)[k := [x] + old(lists[k])]
    {
      ghost var ring := Ring(pages + k, lists[k]);
      LinkedAt(next[..], prev[..], pages, lists, |lists|, k);
      assert next[..][ring[0]] == ring[1];
      Insert(x, pages + k, next[pages + k], k, 0);
      assert old(lists[k])[..0] + [x] + old(lists[k])[0..] == [x] + old(lists[k]);
    }

    /** COMEX_list_add_tail: x becomes the last page of order k. */
    method AddTail(x: nat, k: nat)
      requires Valid() && x < pages && !Listed(lists, x) && k < COMEX_MAX_ORDER
      modifies this, next, prev
      ensures Valid()
      ensures lists == old(lists)[k := old(lists[k]) + [x]]
    {
      ghost var ring, n := Ring(pages + k, lists[k]), |lists[k]|;
      LinkedAt(next[..], prev[..], pages, lists, |lists|, k);
      assert prev[..][ring[n + 1]] == ring[n];
      Insert(x, prev[pages + k], pages + k, k, n);
      assert old(lists[k])[..n] + [x] + old(lists[k])[n..] == old(lists[k]) + [x];
    }

    /** COMEX_list_del: x leaves its list and points at itself. */
    method Delete(x: nat, ghost k: nat, ghost i: nat)
      requires Valid() && k < COMEX_MAX_ORDER && i < |lists[k]| && lists[k][i] == x < pages
      modifies this, next, prev
      ensures Valid()
      ensures lists == old(lists)[k := old(lists[k])[..i] + old(lists[k])[i + 1..]]
      ensures next[x] == x && prev[x] == x && !Listed(lists, x)
    {
      DeleteStep(next[..], prev[..], pages, lists, k, i);
      var p, n := prev[x], next[x];
      prev[n] := p;
      next[p] := n;
      next[x] := x;
      prev[x] := x;
      assert next[..] == old(next[..])[p := n][x := x] && prev[..] == old(prev[..])[n := p][x := x];
      lists := lists[k := lists[k][..i] + lists[k][i + 1..]];
    }
  }
}

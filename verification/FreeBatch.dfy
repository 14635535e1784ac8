/** The borrower's batch of released pages for one lender: at most 16 runs, sent when a page fits
    into none of them. */
module FreeBatch {
  import opened Blocks
  import opened Common
  import opened PageFree

  const MAX_COUNT: nat := 16383

  /** The first run that can take page p at its end or before its start. */
  function Extend(runs: seq<Run>, p: nat): Option<seq<Run>> {
    if runs == [] then None
    else
      var r := runs[0];
      if r.start + r.count == p && r.count < MAX_COUNT then Some([Run(r.start, r.count + 1)] + runs[1..])
      else if r.start - 1 == p && r.count < MAX_COUNT then Some([Run(p, r.count + 1)] + runs[1..])
      else match Extend(runs[1..], p)
        case None => None
        case Some(rest) => Some([r] + rest)
  }

  /** The batch after a release, and the message the release sends, if any. */
  datatype Released = Released(batch: seq<Run>, sent: seq<seq<Run>>)

  function ReleasePage(runs: seq<Run>, p: nat): Released {
    match Extend(runs, p)
      case Some(more) => Released(more, [])
      case None =>
        if |runs| < MAX_FREE then Released(runs + [Run(p, 1)], [])
        else Released([Run(p, 1)], [runs])
  }

  ghost predicate WellFormedBatch(runs: seq<Run>) {
    |runs| <= MAX_FREE && forall r | r in runs :: 1 <= r.count <= MAX_COUNT
  }

  // ----- how often a page occurs -----

  function RunCount(r: Run, p: nat): nat {
    if r.start <= p < r.start + r.count then 1 else 0
  }

  ghost function RunsCount(runs: seq<Run>, p: nat): nat {
    if runs == [] then 0 else RunCount(runs[0], p) + RunsCount(runs[1..], p)
  }

  lemma {:induction false} RunsCountConcat(a: seq<Run>, b: seq<Run>, p: nat)
    ensures RunsCount(a + b, p) == RunsCount(a, p) + RunsCount(b, p)
    decreases |a|
  {
    if a == [] {
      assert a + b == b;
    } else {
      RunsCountConcat(a[1..], b, p);
      assert (a + b)[1..] == a[1..] + b;
    }
  }

  lemma {:induction false} ExtendAddsOne(runs: seq<Run>, p: nat, q: nat)
    requires forall r | r in runs :: 1 <= r.count <= MAX_COUNT
    ensures Extend(runs, p).Some? ==>
      var more := Extend(runs, p).value;
      && |more| == |runs| && (forall r | r in more :: 1 <= r.count <= MAX_COUNT)
      && RunsCount(more, q) == RunsCount(runs, q) + if q == p then 1 else 0
    decreases |runs|
  {
    if runs != [] && Extend(runs, p).Some? {
      var r, more := runs[0], Extend(runs, p).value;
      if (r.start + r.count == p || r.start - 1 == p) && r.count < MAX_COUNT {
        assert more[1..] == runs[1..];
      } else {
        ExtendAddsOne(runs[1..], p, q);
        assert more[1..] == Extend(runs[1..], p).value;
      }
    }
  }

  /** A release adds its page once to the batch and the sent message together, and loses nothing. */
  lemma ReleaseConserves(runs: seq<Run>, p: nat, q: nat)
    requires WellFormedBatch(runs)
    ensures var r := ReleasePage(runs, p);
      && WellFormedBatch(r.batch) && |r.sent| <= 1 && (forall m | m in r.sent :: WellFormedBatch(m))
      && RunsCount(r.batch, q) + (if r.sent == [] then 0 else RunsCount(r.sent[0], q))
         == RunsCount(runs, q) + if q == p then 1 else 0
  {
    ExtendAddsOne(runs, p, q);
    RunsCountConcat(runs, [Run(p, 1)], q);
    assert RunsCount([Run(p, 1)], q) == RunCount(Run(p, 1), q);
  }

  // ----- every sequence of releases -----

  /** The batch and the messages after a sequence of releases, oldest first. */
  function ReleaseAll(pages: seq<nat>): Released
    decreases |pages|
  {
    if pages == [] then Released([], [])
    else
      var before := ReleaseAll(pages[..|pages| - 1]);
      var r := ReleasePage(before.batch, pages[|pages| - 1]);
      Released(r.batch, before.sent + r.sent)
  }

  ghost function SentCount(sent: seq<seq<Run>>, p: nat): nat {
    if sent == [] then 0 else RunsCount(sent[0], p) + SentCount(sent[1..], p)
  }

  lemma {:induction false} SentCountConcat(a: seq<seq<Run>>, b: seq<seq<Run>>, p: nat)
    ensures SentCount(a + b, p) == SentCount(a, p) + SentCount(b, p)
    decreases |a|
  {
    if a == [] {
      assert a + b == b;
    } else {
      SentCountConcat(a[1..], b, p);
      assert (a + b)[1..] == a[1..] + b;
    }
  }

  ghost function Occurrences(pages: seq<nat>, p: nat): nat
    decreases |pages|
  {
    if pages == [] then 0
    else Occurrences(pages[..|pages| - 1], p) + if pages[|pages| - 1] == p then 1 else 0
  }

  /** Over every sequence of releases, the sent messages and the pending batch together hold each
      page as often as it was released. */
  lemma {:induction false} BatchConserves(pages: seq<nat>, p: nat)
    ensures var r := ReleaseAll(pages);
      && WellFormedBatch(r.batch) && (forall m | m in r.sent :: WellFormedBatch(m))
      && SentCount(r.sent, p) + RunsCount(r.batch, p) == Occurrences(pages, p)
    decreases |pages|
  {
    if pages == [] {
    } else {
      var rest, last := pages[..|pages| - 1], pages[|pages| - 1];
      BatchConserves(rest, p);
      var before := ReleaseAll(rest);
      var r := ReleasePage(before.batch, last);
      ReleaseConserves(before.batch, last, p);
      SentCountConcat(before.sent, r.sent, p);
      assert r.sent != [] ==> r.sent[1..] == [];
    }
  }

  lemma {:induction false} DistinctOccurs(pages: seq<nat>, p: nat)
    requires forall i, j | 0 <= i < j < |pages| :: pages[i] != pages[j]
    ensures Occurrences(pages, p) == if p in pages then 1 else 0
    decreases |pages|
  {
    if pages == [] {
    } else {
      var rest := pages[..|pages| - 1];
      DistinctOccurs(rest, p);
      assert pages == rest + [pages[|pages| - 1]];
    }
  }

  /** When no page is released twice, the runs of all messages and of the batch are pairwise
      disjoint and hold exactly the released pages. */
  lemma DistinctReleases(pages: seq<nat>, p: nat)
    requires forall i, j | 0 <= i < j < |pages| :: pages[i] != pages[j]
    ensures var r := ReleaseAll(pages);
      SentCount(r.sent, p) + RunsCount(r.batch, p) == if p in pages then 1 else 0
  {
    BatchConserves(pages, p);
    DistinctOccurs(pages, p);
  }

  // ----- from counts to the precondition of the PAGE_FREE handler -----

  lemma {:induction false} CountIsMembership(runs: seq<Run>, p: nat)
    ensures RunsCount(runs, p) > 0 <==> p in RunsPages(runs)
    decreases |runs|
  {
    if runs == [] {
    } else {
      CountIsMembership(runs[1..], p);
    }
  }

  /** Runs in which no page occurs twice, and none that is free, meet the handler's precondition. */
  lemma {:induction false} CountsHeld(free: set<nat>, runs: seq<Run>)
    requires forall p: nat :: RunsCount(runs, p) + (if p in free then 1 else 0) <= 1
    ensures RunsHeld(free, runs)
    decreases |runs|
  {
    if runs == [] {
    } else {
      var more := free + RunPages(runs[0]);
      forall p: nat
        ensures RunsCount(runs[1..], p) + (if p in more then 1 else 0) <= 1
      {
        assert RunsCount(runs, p) + (if p in free then 1 else 0) <= 1;
      }
      forall p: nat | p in RunPages(runs[0])
        ensures p !in free
      {
        assert RunsCount(runs, p) + (if p in free then 1 else 0) <= 1;
      }
      CountsHeld(more, runs[1..]);
    }
  }

  /** free_struct_t of one lender */
  class FreeStruct {
    const pageNO: array<int>
    const count: array<int>
    ghost var runs: seq<Run>

    /** The used slots are a prefix of the 16; the others are -1 and 0. */
    ghost predicate Valid()
      reads this, pageNO, count
    {
      && pageNO.Length == count.Length == MAX_FREE && pageNO != count
      && WellFormedBatch(runs)
      && (forall i | 0 <= i < |runs| :: pageNO[i] == runs[i].start && count[i] == runs[i].count)
      && (forall i | |runs| <= i < MAX_FREE :: pageNO[i] == -1 && count[i] == 0)
    }

    constructor ()
      ensures Valid() && runs == [] && fresh(pageNO) && fresh(count)
    {
      pageNO := new int[MAX_FREE](i => -1);
      count := new int[MAX_FREE](i => 0);
      runs := [];
    }

    /** clean_free_struct */
    method Clean()
      requires pageNO.Length == count.Length == MAX_FREE && pageNO != count
      modifies this, pageNO, count
      ensures Valid() && runs == []
    {
      for i := 0 to MAX_FREE
        invariant forall j | 0 <= j < i :: pageNO[j] == -1 && count[j] == 0
      {
        pageNO[i] := -1;
        count[i] := 0;
      }
      runs := [];
    }

    /** Write slot i: a used one, or the first unused one. */
    method SetSlot(i: nat, page: nat, n: nat)
      requires Valid() && i <= |runs| && i < MAX_FREE && 1 <= n <= MAX_COUNT
      modifies this, pageNO, count
      ensures Valid() && runs == if i < |old(runs)| then old(runs)[i := Run(page, n)] else old(runs) + [Run(page, n)]
    {
      pageNO[i] := page;
      count[i] := n;
      runs := if i < |runs| then runs[i := Run(page, n)] else runs + [Run(page, n)];
    }

    /** COMEX_free_to_remote: returns the PAGE_FREE messages it sends, none or one. */
    method FreeToRemote(p: nat) returns (sent: seq<(seq<int>, seq<int>)>)
      requires Valid()
      modifies this, pageNO, count
      ensures Valid() && runs == ReleasePage(old(runs), p).batch
      ensures |sent| == |ReleasePage(old(runs), p).sent|
      ensures sent != [] ==> ReleasePage(old(runs), p).sent == [old(runs)]
      ensures sent != [] ==> |sent[0].0| == |sent[0].1| == MAX_FREE && SlotRuns(sent[0].0, sent[0].1, 0) == old(runs)
    {
      ghost var before := runs;
      var i := 0;
      while i < MAX_FREE
        invariant 0 <= i <= |before| && unchanged(this, pageNO, count)
        invariant NoneFits(before, p, i)
        decreases MAX_FREE - i
      {
        SlotDecides(before, p, i);
        if pageNO[i] + count[i] == p && count[i] < MAX_COUNT {
          SetSlot(i, pageNO[i], count[i] + 1);
          return [];
        }
        if pageNO[i] - 1 == p && count[i] < MAX_COUNT {
          SetSlot(i, pageNO[i] - 1, count[i] + 1);
          return [];
        }
        if pageNO[i] == -1 {
          SetSlot(i, p, 1);
          return [];
        }
        i := i + 1;
      }
      SlotDecides(before, p, i);
      assert pageNO[..] == old(pageNO[..]) && count[..] == old(count[..]);
      sent := [(pageNO[..], count[..])];
      MessageRuns(pageNO[..], count[..], before, 0);
      Clean();
      SetSlot(0, p, 1);
    }
  }

  /** The first run that ends right before the page or starts right behind it, and has room, takes it. */
  lemma ReleaseInto(runs: seq<Run>, p: nat, i: nat)
    requires i < |runs| && runs[i].count < 16383
    requires forall j | 0 <= j < i ::
      runs[j].count >= 16383 || (runs[j].start + runs[j].count != p && runs[j].start != p + 1)
    ensures runs[i].start + runs[i].count == p ==>
      ReleasePage(runs, p) == Released(runs[i := Run(runs[i].start, runs[i].count + 1)], [])
    ensures runs[i].start + runs[i].count != p && runs[i].start == p + 1 ==>
      ReleasePage(runs, p) == Released(runs[i := Run(p, runs[i].count + 1)], [])
  {
    SlotDecides(runs, p, i);
  }

  /** When there is none, the page starts a new run, and with 16 runs there already, a new batch. */
  lemma ReleaseNew(runs: seq<Run>, p: nat)
    requires |runs| <= 16
    requires forall j | 0 <= j < |runs| ::
      runs[j].count >= 16383 || (runs[j].start + runs[j].count != p && runs[j].start != p + 1)
    ensures ReleasePage(runs, p) ==
      if |runs| < 16 then Released(runs + [Run(p, 1)], []) else Released([Run(p, 1)], [runs])
  {
    SlotDecides(runs, p, |runs|);
  }

  /** A message copied from a full batch stands for the runs of the batch. */
  lemma {:induction false} MessageRuns(pageNO: seq<int>, count: seq<int>, runs: seq<Run>, i: nat)
    requires |pageNO| == |count| == |runs| && i <= |runs|
    requires forall j | 0 <= j < |runs| :: pageNO[j] == runs[j].start && count[j] == runs[j].count > 0
    ensures SlotRuns(pageNO, count, i) == runs[i..]
    decreases |runs| - i
  {
    if i < |runs| {
      MessageRuns(pageNO, count, runs, i + 1);
    }
  }

  /** None of the first i runs can take page p. */
  ghost predicate NoneFits(runs: seq<Run>, p: nat, i: nat)
    requires i <= |runs|
  {
    forall j | 0 <= j < i ::
      !(runs[j].count < MAX_COUNT && (runs[j].start + runs[j].count == p || runs[j].start - 1 == p))
  }

  lemma SetFirst(runs: seq<Run>, r: Run)
    requires runs != []
    ensures runs[0 := r] == [r] + runs[1..]
  {}

  lemma SetLater(runs: seq<Run>, i: nat, r: Run)
    requires 0 < i < |runs|
    ensures runs[i := r] == [runs[0]] + runs[1..][i - 1 := r]
  {}

  /** The scan of the slots and Extend agree: the first run that fits decides. */
  lemma {:induction false} SlotDecides(runs: seq<Run>, p: nat, i: nat)
    requires i <= |runs| && NoneFits(runs, p, i)
    ensures i == |runs| ==> Extend(runs, p) == None
    ensures i < |runs| && runs[i].count < MAX_COUNT && runs[i].start + runs[i].count == p ==>
      Extend(runs, p) == Some(runs[i := Run(runs[i].start, runs[i].count + 1)])
    ensures i < |runs| && runs[i].count < MAX_COUNT && runs[i].start + runs[i].count != p && runs[i].start - 1 == p ==>
      Extend(runs, p) == Some(runs[i := Run(p, runs[i].count + 1)])
    decreases |runs|
  {
    if i == 0 {
      if runs != [] {
        SetFirst(runs, Run(runs[0].start, runs[0].count + 1));
        SetFirst(runs, Run(p, runs[0].count + 1));
      }
    } else {
      assert !(runs[0].count < MAX_COUNT && (runs[0].start + runs[0].count == p || runs[0].start - 1 == p));
      var rest := runs[1..];
      assert forall j | 0 <= j < i - 1 :: rest[j] == runs[j + 1];
      SlotDecides(rest, p, i - 1);
      if i < |runs| {
        SetLater(runs, i, Run(runs[i].start, runs[i].count + 1));
        SetLater(runs, i, Run(p, runs[i].count + 1));
      }
    }
  }
}

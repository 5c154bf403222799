/** A watch in a run of the log: it subscribes in one state, queries the table in a later one,
    and is judged in a later one still. */
module LogWatch {
  import opened Kine
  import opened LogAnyRun
  import opened LogInvariant
  import opened LogMachine
  import opened LogPoll
  import opened WatchSplice

  // ----- where later rows can appear -----

  ghost predicate NewIds(s: State, s': State) {
    && s.next <= s'.next
    && (forall i | i in s'.log && i !in s.log :: s.next <= i || Holds(s, i))
    && (forall i: nat | Holds(s', i) :: s.next <= i || Holds(s, i))
  }

  lemma StepNewIds(s: State, step: Step)
    requires Loose(s) && Enabled(s, step)
    ensures NewIds(s, Apply(s, step))
  {
    StepGrows(s, step);
    if step.Commit? { assert Holds(s, s.writers[step.writer].stage.id); }
    forall i: nat | Holds(Apply(s, step), i) ensures s.next <= i || Holds(s, i) { HoldsAfter(s, step, i); }
    NextRises(s, step);
  }

  lemma NextRises(s: State, step: Step)
    requires Enabled(s, step)
    ensures s.next <= Apply(s, step).next
  {
  }

  lemma NewIdsCompose(s: State, m: State, s': State)
    requires NewIds(s, m) && NewIds(m, s') && Grown(m.log, s'.log)
    ensures NewIds(s, s')
  {
  }

  /** A row that appears later has an id not yet handed out, or belongs to a write that already
      held its id. */
  lemma {:induction false} RunNewIds(s: State, steps: seq<Step>)
    requires Loose(s) && AnyRun(s, steps)
    ensures NewIds(s, Final(s, steps))
    decreases |steps|
  {
    if steps != [] {
      var m := Apply(s, steps[0]);
      StepNewIds(s, steps[0]);
      LooseStep(s, steps[0]);
      LogGrows(m, steps[1..]);
      RunNewIds(m, steps[1..]);
      NewIdsCompose(s, m, Final(m, steps[1..]));
    }
  }

  // ----- the watch -----

  /** In-order visibility at the historical query: no write holds an id below the highest row, or
      below the position p of the poller. */
  ghost predicate InOrder(s: State, p: nat) {
    forall i: nat | Holds(s, i) :: MaxId(s.rows) < i && p < i
  }

  lemma QueryPart(s2: State, steps: seq<Step>, start: nat)
    requires Loose(s2) && AnyRun(s2, steps)
    ensures PartOf(s2.rows, Final(s2, steps).log, start)
  {
    LogGrows(s2, steps);
    forall i | i in s2.rows && start < i && !IsFill(s2.rows[i].name)
      ensures i in s2.log && s2.log[i].name == s2.rows[i].name && Scan(i, s2.log[i]) == Scan(i, s2.rows[i])
    {
      RowInLog(s2, i);
    }
  }

  /** With in-order visibility, the query hides no change above the compact revision. */
  lemma InOrderIsComplete(s2: State, steps: seq<Step>, key: string, end: string, lo: nat, edge: nat, p: nat)
    requires Loose(s2) && AnyRun(s2, steps) && InOrder(s2, p) && p < s2.next
    requires CompactRev(s2.rows) <= lo && (edge <= lo || edge <= MaxId(s2.rows) || edge <= p)
    ensures SameWanted(s2.rows, Final(s2, steps).log, key, end, lo, edge)
  {
    var t := Final(s2, steps).log;
    RunNewIds(s2, steps);
    LogGrows(s2, steps);
    MaxIdBounds(s2);
    StoredCompactRev(s2);
    var core, c := Core(s2.rows), CompactRev(s2.rows);
    forall i | lo < i <= edge && i in t && Wanted(t, key, end, i) ensures i in s2.rows && !IsFill(s2.rows[i].name) {
      assert i in s2.log;
      assert i in core || Justified(s2.log, i, c);
    }
  }

  // ----- what the query can hide, seen when it runs -----

  ghost predicate NoCompaction(steps: seq<Step>) {
    forall i | 0 <= i < |steps| :: !steps[i].Compact?
  }

  /** A write that may still commit at an id in the interval, under a name of the range. */
  ghost predicate Hides(s: State, w: nat, key: string, end: string, lo: nat, edge: nat) {
    && CanCommit(s, w) && lo < s.writers[w].stage.id <= edge
    && Selects(key, end, s.writers[w].row.name)
  }

  /** Without compactions, a write that may commit at an old id could already have done so before. */
  lemma CouldBefore(s: State, step: Step, w: nat)
    requires Loose(s) && Housed(s) && Enabled(s, step) && !step.Compact?
    requires CanCommit(Apply(s, step), w) && Apply(s, step).writers[w].stage.id < s.next
    ensures CanCommit(s, w) && s.writers[w] == Apply(s, step).writers[w]
  {
    RowsStay(s, step);
  }

  lemma RowsStay(s: State, step: Step)
    requires Enabled(s, step) && !step.Compact?
    ensures forall i | i in s.rows :: i in Apply(s, step).rows && Apply(s, step).rows[i] == s.rows[i]
  {
  }

  /** Every wanted row is visible, and no write can commit an unseen one up to the edge. */
  ghost predicate NothingHidden(rows: Table, s: State, key: string, end: string, lo: nat, edge: nat) {
    && SameWanted(rows, s.log, key, end, lo, edge) && edge < s.next
    && forall w | CanCommit(s, w) :: !Hides(s, w, key, end, lo, edge)
  }

  lemma NothingHiddenStep(rows: Table, s: State, step: Step, key: string, end: string, lo: nat, edge: nat)
    requires Loose(s) && Housed(s) && Enabled(s, step) && !step.Compact? && NothingHidden(rows, s, key, end, lo, edge)
    ensures NothingHidden(rows, Apply(s, step), key, end, lo, edge)
  {
    var s' := Apply(s, step);
    StepGrows(s, step);
    forall w | CanCommit(s', w) ensures !Hides(s', w, key, end, lo, edge) {
      if s'.writers[w].stage.id < s.next { CouldBefore(s, step, w); }
    }
  }

  lemma {:induction false} NothingHiddenRun(rows: Table, s: State, steps: seq<Step>, key: string, end: string, lo: nat,
                                            edge: nat)
    requires Loose(s) && Housed(s) && AnyRun(s, steps) && NoCompaction(steps)
    requires NothingHidden(rows, s, key, end, lo, edge)
    ensures SameWanted(rows, Final(s, steps).log, key, end, lo, edge)
    decreases |steps|
  {
    if steps != [] {
      LooseStep(s, steps[0]);
      HousedStep(s, steps[0]);
      NothingHiddenStep(rows, s, steps[0], key, end, lo, edge);
      NothingHiddenRun(rows, Apply(s, steps[0]), steps[1..], key, end, lo, edge);
    }
  }

  /** The query hides nothing up to the edge, whatever happens next short of a compaction. */
  ghost predicate Complete(s: State, key: string, end: string, lo: nat, edge: nat) {
    forall steps | AnyRun(s, steps) && NoCompaction(steps) ::
        SameWanted(s.rows, Final(s, steps).log, key, end, lo, edge)
  }

  lemma SeenSoFar(s: State, key: string, end: string, lo: nat, edge: nat)
    requires Loose(s) && CompactRev(s.rows) <= lo
    ensures SameWanted(s.rows, s.log, key, end, lo, edge)
  {
    StoredCompactRev(s);
    var core, c := Core(s.rows), CompactRev(s.rows);
    forall i | lo < i <= edge && i in s.log && Wanted(s.log, key, end, i)
      ensures i in s.rows && !IsFill(s.rows[i].name)
    {
      assert i in core || Justified(s.log, i, c);
    }
  }

  /** A write that hides does hide: once it has committed, the query has missed its row. */
  lemma HiddenRow(s: State, w: nat, key: string, end: string, lo: nat, edge: nat)
    requires Loose(s) && Hides(s, w, key, end, lo, edge)
    ensures !SameWanted(s.rows, DoCommit(s, w).log, key, end, lo, edge)
  {
    assert WriterSound(s.log, s.next, s.writers[w]);
    var i, log := s.writers[w].stage.id, DoCommit(s, w).log;
    assert i in log && Wanted(log, key, end, i) && i !in s.rows;
  }

  lemma SingleStep(s: State, step: Step)
    requires Enabled(s, step)
    ensures AnyRun(s, [step]) && Final(s, [step]) == Apply(s, step)
  {
    assert [step][1..] == [];
  }

  /** Exactly when the historical query is complete, seen when it runs: no write may still commit at
      an id up to the edge under a name of the range. */
  lemma CompleteIff(s: State, key: string, end: string, lo: nat, edge: nat)
    requires Loose(s) && Housed(s) && CompactRev(s.rows) <= lo && edge < s.next
    ensures Complete(s, key, end, lo, edge) <==> forall w | CanCommit(s, w) :: !Hides(s, w, key, end, lo, edge)
  {
    SeenSoFar(s, key, end, lo, edge);
    if w :| Hides(s, w, key, end, lo, edge) {
      var steps := [Commit(w)];
      SingleStep(s, Commit(w));
      HiddenRow(s, w, key, end, lo, edge);
    } else {
      forall steps | AnyRun(s, steps) && NoCompaction(steps)
        ensures SameWanted(s.rows, Final(s, steps).log, key, end, lo, edge)
      {
        NothingHiddenRun(s.rows, s, steps, key, end, lo, edge);
      }
    }
  }

  /** The code serves the watch: revision 0, or a start revision not compacted yet. */
  ghost predicate Accepted(rows: Table, revision: nat) {
    Start(revision) == 0 || CompactRev(rows) <= Start(revision)
  }

  /** A watch is refused exactly if it asks for a revision that has been compacted; revision 0 never does. */
  lemma AcceptedExact(rows: Table, revision: nat)
    ensures revision == 0 ==> Accepted(rows, revision)
    ensures revision >= 2 ==> (Accepted(rows, revision) <==> CompactRev(rows) < revision)
    ensures revision == 1 ==> (Accepted(rows, revision) <==> CompactRev(rows) <= 1)
  {
  }

  /** Subscribe in s1, query in s2, look in the final state once the poller has passed the query.
      The watch has delivered what the query saw up to the edge and every later change. That is
      exactly the changes of its range after its start revision if and only if the query hid none of
      them. With in-order visibility it hides none above the compact revision, so only a watch of
      revision 0 can miss any, and only changes compacted before. */
  lemma WatchExact(s1: State, first: seq<Step>, second: seq<Step>, k: nat, key: string, end: string, revision: nat)
    requires Loose(s1) && Exact(s1, k) && Polls(s1, k) && PollSafeRun(s1, first, k) && AnyRun(s1, first)
    requires var s2 := Final(s1, first);
             AnyRun(s2, second) && PollSafeRun(s2, second, k) && Accepted(s2.rows, revision)
    requires var s2 := Final(s1, first); var s3 := Final(s2, second);
             k in s3.nodes && MaxId(s2.rows) <= s3.nodes[k].pollRev
    requires WellFormed(key, end)
    ensures var s2 := Final(s1, first); var s3 := Final(s2, second);
            var p, q, start := s1.nodes[k].pollRev, s3.nodes[k].pollRev, Start(revision);
            var edge, out := Edge(s2.rows, key, end, start, p),
                NoFills(Delivered(s2.rows, s3.log, key, end, start, p, q));
            && s3.nodes[k].sent == s1.nodes[k].sent + Span(s3.log, p, q)
            && out == Expected(s2.rows, key, end, start, edge) + Expected(s3.log, key, end, edge, q)
            && (out == Expected(s3.log, key, end, start, q) <==> SameWanted(s2.rows, s3.log, key, end, start, edge))
            && (InOrder(s2, p) ==> SameWanted(s2.rows, s3.log, key, end, Floor(s2.rows, start), edge))
            && (InOrder(s2, p) && start > 0 ==> out == Expected(s3.log, key, end, start, q))
  {
    var s2 := Final(s1, first);
    var s3 := Final(s2, second);
    var p, start := s1.nodes[k].pollRev, Start(revision);
    assert NodeSound(s1.next, s1.nodes[k]);
    SentWhole(s1, first, second, k);
    QueryPart(s2, second, start);
    SpliceExact(s2.rows, s3.log, key, end, start, p, s3.nodes[k].pollRev);
    RunNewIds(s1, first);
    if InOrder(s2, p) {
      InOrderIsComplete(s2, second, key, end, Floor(s2.rows, start), Edge(s2.rows, key, end, start, p), p);
    }
  }

  /** Nothing at or below this revision is promised: the start, or the compact revision. */
  function Floor(rows: Table, start: nat): nat {
    if start < CompactRev(rows) then CompactRev(rows) else start
  }

  lemma SentWhole(s1: State, first: seq<Step>, second: seq<Step>, k: nat)
    requires Loose(s1) && Exact(s1, k) && Polls(s1, k) && PollSafeRun(s1, first, k) && AnyRun(s1, first)
    requires var s2 := Final(s1, first); AnyRun(s2, second) && PollSafeRun(s2, second, k)
    ensures var s2 := Final(s1, first); var s3 := Final(s2, second);
            && Loose(s2) && k in s3.nodes && s1.nodes[k].pollRev <= s3.nodes[k].pollRev
            && s3.nodes[k].sent == s1.nodes[k].sent + Span(s3.log, s1.nodes[k].pollRev, s3.nodes[k].pollRev)
  {
    FirstPart(s1, first, k);
    Rest(Final(s1, first), second, k, s1.nodes[k].pollRev, s1.nodes[k].sent);
  }

  lemma FirstPart(s1: State, first: seq<Step>, k: nat)
    requires Loose(s1) && Exact(s1, k) && Polls(s1, k) && PollSafeRun(s1, first, k) && AnyRun(s1, first)
    ensures var s2 := Final(s1, first);
            && Loose(s2) && Exact(s2, k) && Polls(s2, k)
            && s2.nodes[k].pollStart <= s1.nodes[k].pollRev <= s2.nodes[k].pollRev
            && s2.nodes[k].sent == s1.nodes[k].sent + Span(s2.log, s1.nodes[k].pollRev, s2.nodes[k].pollRev)
  {
    assert NodeSound(s1.next, s1.nodes[k]);
    ExactRun(s1, first, k);
    SentBetween(s1, first, k);
    PassedIsFinal(s1, first, k);
  }

  lemma Rest(s2: State, second: seq<Step>, k: nat, p: nat, sent: seq<Event>)
    requires Loose(s2) && Exact(s2, k) && Polls(s2, k) && PollSafeRun(s2, second, k) && AnyRun(s2, second)
    requires s2.nodes[k].pollStart <= p <= s2.nodes[k].pollRev
    requires s2.nodes[k].sent == sent + Span(s2.log, p, s2.nodes[k].pollRev)
    ensures var s3 := Final(s2, second);
            k in s3.nodes && p <= s3.nodes[k].pollRev && s3.nodes[k].sent == sent + Span(s3.log, p, s3.nodes[k].pollRev)
  {
    var s3, n := Final(s2, second), s2.nodes[k];
    assert NodeSound(s2.next, n);
    SentBetween(s2, second, k);
    SpanKept(s2, second, k, p);
    JoinSpans(s3.log, p, n.pollRev, s3.nodes[k].pollRev, sent);
  }

  lemma JoinSpans(log: Table, p: nat, q: nat, r: nat, sent: seq<Event>)
    requires p <= q <= r
    ensures sent + Span(log, p, q) + Span(log, q, r) == sent + Span(log, p, r)
  {
    SpanSplit(log, p, q, r);
  }

  lemma SpanKept(s2: State, second: seq<Step>, k: nat, p: nat)
    requires Loose(s2) && Exact(s2, k) && Polls(s2, k) && PollSafeRun(s2, second, k) && AnyRun(s2, second)
    requires s2.nodes[k].pollStart <= p
    ensures Span(Final(s2, second).log, p, s2.nodes[k].pollRev) == Span(s2.log, p, s2.nodes[k].pollRev)
  {
    assert NodeSound(s2.next, s2.nodes[k]);
    PassedIsFinal(s2, second, k);
    SpanFrame(Final(s2, second).log, s2.log, p, s2.nodes[k].pollRev);
  }
}

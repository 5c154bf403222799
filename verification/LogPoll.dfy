/** Pollers. In every run whose compactions a poller does not notice, it sends every change exactly
    once and in order; the condition on its compactions is exact, and a change it fails to read
    is never sent. */
module LogPoll {
  import opened Compaction
  import opened Kine
  import opened LogAnyRun
  import opened LogInvariant
  import opened LogMachine

  /** Committed row i is visible. */
  ghost predicate Visible(rows: Table, i: nat) {
    i in rows && !IsFill(rows[i].name)
  }

  /** What the poller has sent and read are the changes after its start. Every change it has yet to
      read is visible, and no write can commit at an id it has passed. */
  ghost predicate PollerOk(s: State, n: Node) {
    && n.sent == Span(s.log, n.pollStart, n.pollRev)
    && (n.pending.Some? ==> n.pending.value.batch == Span(s.log, n.pollRev, n.pending.value.rev))
    && (forall i | i in s.log && Passed(n) < i :: Visible(s.rows, i))
    && (forall i: nat | Holds(s, i) && n.pollStart < i <= Passed(n) :: i in s.rows)
  }

  /** Poller k is exact; a node that does not poll has nothing to be exact about. */
  ghost predicate Exact(s: State, k: nat) {
    Polls(s, k) ==> PollerOk(s, s.nodes[k])
  }

  // ----- one step -----

  /** Rows and reservations that only a poller's own past can be disturbed by. */
  lemma Unmoved(s: State, s': State, n: Node)
    requires PollerOk(s, n) && s'.log == s.log
    requires forall i | Visible(s.rows, i) && Passed(n) < i && i in s.log :: Visible(s'.rows, i)
    requires forall i: nat | Holds(s', i) && n.pollStart < i <= Passed(n) :: i in s'.rows
    ensures PollerOk(s', n)
  {
  }

  lemma HoldsCommitted(s: State, w: nat, i: nat)
    requires CanCommit(s, w) && Holds(DoCommit(s, w), i)
    ensures Holds(s, i)
  {
    var s' := DoCommit(s, w);
    var v :| v in s'.writers && s'.writers[v].stage.Reserved? && s'.writers[v].stage.id == i;
    assert v in s.writers && s.writers[v].stage == s'.writers[v].stage;
  }

  lemma CommitSpans(log: Table, log': Table, n: Node, id: nat)
    requires n.pollStart <= n.pollRev <= Passed(n) && !(n.pollStart < id <= Passed(n)) && id in log'
    requires log' == log[id := log'[id]]
    ensures Span(log', n.pollStart, n.pollRev) == Span(log, n.pollStart, n.pollRev)
    ensures n.pending.Some? ==> Span(log', n.pollRev, n.pending.value.rev) == Span(log, n.pollRev, n.pending.value.rev)
  {
    SpanFrame(log, log', n.pollStart, n.pollRev);
    if n.pending.Some? { SpanFrame(log, log', n.pollRev, n.pending.value.rev); }
  }

  lemma CommitExact(s: State, w: nat, n: Node)
    requires Loose(s) && CanCommit(s, w) && PollerOk(s, n) && n.pollStart <= n.pollRev <= Passed(n)
    ensures PollerOk(DoCommit(s, w), n)
  {
    var s', id := DoCommit(s, w), s.writers[w].stage.id;
    assert Holds(s, id);
    assert ClientKey(NewRow(s.rows, s.writers[w]).name) by { assert WriterSound(s.log, s.next, s.writers[w]); }
    CommitSpans(s.log, s'.log, n, id);
    forall i: nat | Holds(s', i) && n.pollStart < i <= Passed(n) ensures i in s'.rows { HoldsCommitted(s, w, i); }
  }

  lemma FillExact(s: State, f: nat, n: Node)
    requires Loose(s) && CanFill(s, f) && PollerOk(s, n)
    ensures PollerOk(DoFill(s, f), n)
  {
    var s' := DoFill(s, f);
    forall i: nat | Holds(s', i) ensures Holds(s, i) { HoldsSame(s, s', i); }
    Unmoved(s, s', n);
  }

  lemma HoldsSame(s: State, s': State, i: nat)
    requires s'.writers == s.writers
    ensures Holds(s', i) == Holds(s, i)
  {
  }

  lemma HoldsAfter(s: State, step: Step, i: nat)
    requires Loose(s) && Enabled(s, step) && Holds(Apply(s, step), i)
    ensures Holds(s, i) || i == s.next
  {
    var s' := Apply(s, step);
    var v :| v in s'.writers && s'.writers[v].stage.Reserved? && s'.writers[v].stage.id == i;
    assert v in s.writers && (s'.writers[v].stage == s.writers[v].stage || i == s.next);
  }

  /** Steps that change neither the table nor the log. */
  lemma OtherExact(s: State, step: Step, n: Node)
    requires Loose(s) && Enabled(s, step) && PollerOk(s, n) && Passed(n) < s.next
    requires Apply(s, step).rows == s.rows && Apply(s, step).log == s.log
    ensures PollerOk(Apply(s, step), n)
  {
    var s' := Apply(s, step);
    forall i: nat | Holds(s', i) && n.pollStart < i <= Passed(n) ensures i in s'.rows {
      HoldsAfter(s, step, i);
    }
    Unmoved(s, s', n);
  }

  lemma RowInLog(s: State, i: nat)
    requires Loose(s) && Visible(s.rows, i)
    ensures i in s.log && s.log[i].name == s.rows[i].name && Scan(i, s.rows[i]) == Scan(i, s.log[i])
  {
    assert i in Core(s.rows);
  }

  /** What the poller reads is what was committed. */
  lemma QueryReads(s: State, n: Node, rev: nat)
    requires Loose(s) && PollerOk(s, n) && n.pending.None? && forall i | n.pollRev < i <= rev :: i in s.rows
    ensures Span(s.rows, n.pollRev, rev) == Span(s.log, n.pollRev, rev)
  {
    var core := Core(s.rows);
    forall i | n.pollRev < i <= rev && i in core
      ensures i in s.log && core[i].name == s.log[i].name && Scan(i, core[i]) == Scan(i, s.log[i])
    {
      RowInLog(s, i);
    }
    assert forall i | n.pollRev < i <= rev && i in s.log :: i in core;
    SpanFrame(core, s.log, n.pollRev, rev);
    SpanCore(s.rows, n.pollRev, rev);
  }

  lemma QueryExact(s: State, k: nat, rev: nat)
    requires Loose(s) && CanQuery(s, k, rev) && PollerOk(s, s.nodes[k])
    ensures PollerOk(DoQuery(s, k, rev), DoQuery(s, k, rev).nodes[k])
  {
    var s' := DoQuery(s, k, rev);
    var n, n' := s.nodes[k], s'.nodes[k];
    QueryReads(s, n, rev);
    forall i: nat | Holds(s', i) && n'.pollStart < i <= rev ensures i in s.rows {
      HoldsSame(s, s', i);
    }
  }

  lemma SendExact(s: State, k: nat)
    requires Loose(s) && CanSend(s, k) && PollerOk(s, s.nodes[k])
    ensures PollerOk(DoSend(s, k), DoSend(s, k).nodes[k])
  {
    var n := s.nodes[k];
    assert NodeSound(s.next, n);
    SpanSplit(s.log, n.pollStart, n.pollRev, n.pending.value.rev);
    forall i: nat | Holds(DoSend(s, k), i) ensures Holds(s, i) { HoldsSame(s, DoSend(s, k), i); }
  }

  /** A poller starts out exact if and only if no committed row lies above the highest visible one. */
  lemma StartIff(s: State, k: nat)
    requires Loose(s) && CanStartPoll(s, k)
    ensures PollerOk(DoStartPoll(s, k), DoStartPoll(s, k).nodes[k]) <==> forall i | i in s.log :: i <= MaxId(s.rows)
  {
    var s' := DoStartPoll(s, k);
    var n := s'.nodes[k];
    assert NodeSound(s.next, s.nodes[k]);
    assert n.sent == [] == Span(s.log, n.pollStart, n.pollRev);
    assert forall i | i in s.rows.Keys :: i <= MaxId(s.rows);
  }

  /** A compaction leaves a poller exact if and only if it deletes no change the poller has yet to
      read, and no fill that keeps a write from an id it has passed. */
  lemma CompactIff(s: State, from: nat, r: nat, n: Node)
    requires Loose(s) && CanCompact(s, from, r) && PollerOk(s, n)
    ensures PollerOk(DoCompact(s, r), n) <==> Unnoticed(s, n, Victims(s.rows, r))
  {
    var s', victims := DoCompact(s, r), Victims(s.rows, r);
    CompactedRows(s.rows, r);
    forall i: nat ensures Holds(s', i) == Holds(s, i) { HoldsSame(s, s', i); }
    if PollerOk(s', n) {
      forall v | v in victims && v in s.rows && Passed(n) < v ensures IsFill(s.rows[v].name) {
        assert !Visible(s'.rows, v);
        if Visible(s.rows, v) { RowInLog(s, v); }
      }
    }
    if Unnoticed(s, n, victims) {
      forall i | Visible(s.rows, i) && Passed(n) < i ensures Visible(s'.rows, i) { assert i !in victims; }
      Unmoved(s, s', n);
    }
  }

  predicate OwnStep(step: Step, k: nat) {
    (step.StartPoll? || step.Publish? || step.Query? || step.CasPoll? || step.Send?) && step.node == k
  }

  lemma OwnStepExact(s: State, step: Step, k: nat)
    requires Loose(s) && Enabled(s, step) && OwnStep(step, k) && Exact(s, k)
    ensures Exact(Apply(s, step), k) <==> PollSafe(s, step, k)
  {
    if step.StartPoll? { StartIff(s, k); }
    else if step.Query? { QueryExact(s, k, step.rev); }
    else if step.Send? { SendExact(s, k); }
    else { OtherOwnStep(s, step, k); }
  }

  lemma OtherOwnStep(s: State, step: Step, k: nat)
    requires Loose(s) && Enabled(s, step) && Exact(s, k) && (step.Publish? || step.CasPoll?) && step.node == k
    ensures Exact(Apply(s, step), k)
  {
    var s' := Apply(s, step);
    forall i: nat | Holds(s', i) ensures Holds(s, i) { HoldsSame(s, s', i); }
  }

  /** A step that is not the poller's own leaves its position and what it sent alone. */
  lemma OthersLeave(s: State, step: Step, k: nat)
    requires Enabled(s, step) && !OwnStep(step, k)
    ensures Polls(Apply(s, step), k) == Polls(s, k)
    ensures Polls(s, k) ==>
              var n, n' := s.nodes[k], Apply(s, step).nodes[k];
              n'.pollStart == n.pollStart && n'.pollRev == n.pollRev && n'.pending == n.pending && n'.sent == n.sent
  {
  }

  lemma SamePoller(s: State, n: Node, n': Node)
    requires n'.pollStart == n.pollStart && n'.pollRev == n.pollRev && n'.pending == n.pending && n'.sent == n.sent
    ensures PollerOk(s, n) == PollerOk(s, n')
  {
    assert Passed(n) == Passed(n');
  }

  /** One step keeps poller k exact if and only if it is safe for it. */
  lemma ExactIff(s: State, step: Step, k: nat)
    requires Loose(s) && Enabled(s, step) && Exact(s, k)
    ensures Exact(Apply(s, step), k) <==> PollSafe(s, step, k)
  {
    if OwnStep(step, k) {
      OwnStepExact(s, step, k);
    } else {
      OthersLeave(s, step, k);
      if Polls(s, k) {
        var s', n := Apply(s, step), s.nodes[k];
        assert NodeSound(s.next, n);
        SamePoller(s', n, s'.nodes[k]);
        ExactIffOther(s, step, n);
      }
    }
  }

  lemma ExactIffOther(s: State, step: Step, n: Node)
    requires Loose(s) && Enabled(s, step) && PollerOk(s, n) && n.pollStart <= n.pollRev <= Passed(n) < s.next
    ensures step.Compact? ==> (PollerOk(Apply(s, step), n) <==> Unnoticed(s, n, Victims(s.rows, Target(s, step))))
    ensures !step.Compact? ==> PollerOk(Apply(s, step), n)
  {
    if step.Compact? { CompactIff(s, step.from, Target(s, step), n); }
    else if step.Commit? { CommitExact(s, step.writer, n); }
    else if step.Fill? { FillExact(s, step.node, n); }
    else { OtherExact(s, step, n); }
  }

  // ----- runs -----

  lemma {:induction false} ExactRun(s: State, steps: seq<Step>, k: nat)
    requires Loose(s) && Exact(s, k) && PollSafeRun(s, steps, k)
    ensures AnyRun(s, steps) && Loose(Final(s, steps)) && Exact(Final(s, steps), k)
    decreases |steps|
  {
    if steps != [] {
      LooseStep(s, steps[0]);
      ExactIff(s, steps[0], k);
      ExactRun(Apply(s, steps[0]), steps[1..], k);
    }
  }

  /** Everything a poller has handed over: exactly the changes after the revision it started at,
      up to the one it has reached. */
  lemma PollerExact(steps: seq<Step>, k: nat)
    requires PollSafeRun(INIT, steps, k)
    ensures AnyRun(INIT, steps)
    ensures var s := Final(INIT, steps);
            Polls(s, k) ==> s.nodes[k].sent == Span(s.log, s.nodes[k].pollStart, s.nodes[k].pollRev)
  {
    InitInv();
    ExactRun(INIT, steps, k);
  }

  /** No write commits at an id an exact poller has passed, hence at none that was filled there. */
  lemma CommitsAreFresh(s: State, w: nat, k: nat)
    requires Loose(s) && Exact(s, k) && CanCommit(s, w) && Polls(s, k)
    ensures s.writers[w].stage.id !in s.log
    ensures !(s.nodes[k].pollStart < s.writers[w].stage.id <= Passed(s.nodes[k]))
  {
    assert Holds(s, s.writers[w].stage.id);
    assert WriterSound(s.log, s.next, s.writers[w]);
  }

  /** A poller keeps its start and only moves forward. */
  ghost predicate Moved(n: Node, n': Node) {
    n'.polling && n'.pollStart == n.pollStart && n.pollRev <= n'.pollRev && Passed(n) <= Passed(n')
  }

  lemma StepMoves(s: State, step: Step, k: nat)
    requires Loose(s) && Enabled(s, step) && Polls(s, k)
    ensures Polls(Apply(s, step), k) && Moved(s.nodes[k], Apply(s, step).nodes[k])
  {
    assert NodeSound(s.next, s.nodes[k]);
    if OwnStep(step, k) { OwnStepMoves(s, step, k); } else { OthersLeave(s, step, k); }
  }

  lemma OwnStepMoves(s: State, step: Step, k: nat)
    requires Polls(s, k) && NodeSound(s.next, s.nodes[k]) && Enabled(s, step) && OwnStep(step, k)
    ensures Polls(Apply(s, step), k) && Moved(s.nodes[k], Apply(s, step).nodes[k])
  {
  }

  /** The ids a poller has passed never change again. */
  lemma {:induction false} PassedIsFinal(s: State, steps: seq<Step>, k: nat)
    requires Loose(s) && Exact(s, k) && PollSafeRun(s, steps, k) && Polls(s, k)
    ensures AnyRun(s, steps)
    ensures var n, s' := s.nodes[k], Final(s, steps);
            && Polls(s', k) && Moved(n, s'.nodes[k])
            && (forall i | n.pollStart < i <= Passed(n) ::
                  (i in s'.log <==> i in s.log) && (i in s.log ==> s'.log[i] == s.log[i]))
    decreases |steps|
  {
    if steps != [] {
      var m := Apply(s, steps[0]);
      StepGrows(s, steps[0]);
      StepMoves(s, steps[0], k);
      if steps[0].Commit? { CommitsAreFresh(s, steps[0].writer, k); }
      LooseStep(s, steps[0]);
      ExactIff(s, steps[0], k);
      PassedIsFinal(m, steps[1..], k);
    }
  }

  lemma SpanFinal(s: State, steps: seq<Step>, k: nat, r: nat)
    requires Loose(s) && Exact(s, k) && PollSafeRun(s, steps, k) && Polls(s, k) && r <= Passed(s.nodes[k])
    ensures AnyRun(s, steps)
    ensures Span(Final(s, steps).log, s.nodes[k].pollStart, r) == Span(s.log, s.nodes[k].pollStart, r)
  {
    PassedIsFinal(s, steps, k);
    SpanFrame(Final(s, steps).log, s.log, s.nodes[k].pollStart, r);
  }

  /** WaitForSyncTo(r) returns once polledRev >= r: every change in (pollStart, r] has then been
      handed over, and none can appear there afterwards. */
  lemma WaitForSync(s: State, steps: seq<Step>, k: nat, r: nat)
    requires Loose(s) && Exact(s, k) && PollSafeRun(s, steps, k) && Polls(s, k)
    requires s.nodes[k].pollStart < r <= s.nodes[k].polledRev
    ensures AnyRun(s, steps) && Span(Final(s, steps).log, s.nodes[k].pollStart, r) <= s.nodes[k].sent
  {
    var n := s.nodes[k];
    assert NodeSound(s.next, n);
    SpanFinal(s, steps, k, r);
    SpanSplit(s.log, n.pollStart, r, n.pollRev);
  }

  /** What a poller sends between two states is the changes between its two positions. */
  lemma SentBetween(s: State, steps: seq<Step>, k: nat)
    requires Loose(s) && Exact(s, k) && PollSafeRun(s, steps, k) && Polls(s, k)
    ensures AnyRun(s, steps)
    ensures var s' := Final(s, steps);
            && Polls(s', k) && s.nodes[k].pollRev <= s'.nodes[k].pollRev
            && s'.nodes[k].sent == s.nodes[k].sent + Span(s'.log, s.nodes[k].pollRev, s'.nodes[k].pollRev)
  {
    var n := s.nodes[k];
    assert NodeSound(s.next, n);
    PassedIsFinal(s, steps, k);
    ExactRun(s, steps, k);
    SpanFinal(s, steps, k, n.pollRev);
    SpanSplit(Final(s, steps).log, n.pollStart, n.pollRev, Final(s, steps).nodes[k].pollRev);
  }

  // ----- a change missed -----

  ghost predicate NeverSent(n: Node, i: nat) {
    && n.polling
    && (forall e | e in n.sent :: e.kv.modRev != i)
    && (n.pending.Some? ==> forall e | e in n.pending.value.batch :: e.kv.modRev != i)
  }

  /** Change i was committed, has been neither sent nor read, and is no longer visible or was
      committed behind the poller. */
  ghost predicate Missed(s: State, k: nat, i: nat) {
    && k in s.nodes && i in s.log && NeverSent(s.nodes[k], i)
    && (!Visible(s.rows, i) || i <= Passed(s.nodes[k]))
  }

  lemma MissedStep(s: State, step: Step, k: nat, i: nat)
    requires Loose(s) && Enabled(s, step) && Missed(s, k, i)
    ensures Missed(Apply(s, step), k, i)
  {
    StepGrows(s, step);
    StepMoves(s, step, k);
    if !Visible(s.rows, i) { StaysHidden(s, step, i); }
    if OwnStep(step, k) { OwnStepMisses(s, step, k, i); } else { OthersLeave(s, step, k); }
  }

  lemma OwnStepMisses(s: State, step: Step, k: nat, i: nat)
    requires Enabled(s, step) && OwnStep(step, k) && Missed(s, k, i)
    ensures k in Apply(s, step).nodes && NeverSent(Apply(s, step).nodes[k], i)
  {
    if step.Query? { SpanExact(s.rows, s.nodes[k].pollRev, step.rev); }
  }

  lemma StaysHidden(s: State, step: Step, i: nat)
    requires Loose(s) && Enabled(s, step) && i in s.log && !Visible(s.rows, i)
    ensures !Visible(Apply(s, step).rows, i)
  {
    if step.Commit? { assert WriterSound(s.log, s.next, s.writers[step.writer]); }
    else if step.Fill? { FillIsNotClient(Passed(s.nodes[step.node]) + 1); }
    else if step.Compact? { CompactHides(s, step, i); }
  }

  lemma CompactHides(s: State, step: Step, i: nat)
    requires Enabled(s, step) && step.Compact? && !Visible(s.rows, i)
    ensures !Visible(Apply(s, step).rows, i)
  {
    CompactedRows(s.rows, Target(s, step));
  }

  /** A poller has not sent what was not committed, nor what it has not read. */
  lemma Unsent(s: State, n: Node, i: nat)
    requires PollerOk(s, n) && n.polling && n.pollStart <= n.pollRev <= Passed(n) && (i !in s.log || Passed(n) < i)
    ensures NeverSent(n, i)
  {
    SpanExact(s.log, n.pollStart, n.pollRev);
    if n.pending.Some? { SpanExact(s.log, n.pollRev, n.pending.value.rev); }
  }

  /** A step that is not safe for an exact poller makes it miss a change, or leaves a write free to
      commit at an id it has passed. */
  lemma UnsafeStep(s: State, step: Step, k: nat) returns (i: nat)
    requires Loose(s) && Exact(s, k) && Enabled(s, step) && !PollSafe(s, step, k)
    ensures var s' := Apply(s, step);
            && Polls(s', k)
            && (Missed(s', k, i) || (Holds(s', i) && i !in s'.rows && s'.nodes[k].pollStart < i <= Passed(s'.nodes[k])))
  {
    var s', n := Apply(s, step), s.nodes[k];
    assert NodeSound(s.next, n);
    if step.StartPoll? {
      i :| i in s.log && MaxId(s.rows) < i;
      assert forall j | j in s.rows.Keys :: j <= MaxId(s.rows);
    } else {
      i := NoticedRow(s, step.from, Target(s, step), k);
    }
  }

  lemma NoticedRow(s: State, from: nat, r: nat, k: nat) returns (i: nat)
    requires Loose(s) && CanCompact(s, from, r) && Polls(s, k) && PollerOk(s, s.nodes[k])
    requires !Unnoticed(s, s.nodes[k], Victims(s.rows, r))
    ensures var s', n := DoCompact(s, r), s.nodes[k];
            Missed(s', k, i) || (Holds(s', i) && i !in s'.rows && n.pollStart < i <= Passed(n))
  {
    var n, victims := s.nodes[k], Victims(s.rows, r);
    assert NodeSound(s.next, n);
    CompactedRows(s.rows, r);
    if v :| v in victims && v in s.rows && Passed(n) < v && !IsFill(s.rows[v].name) {
      i := v;
      RowInLog(s, i);
      Unsent(s, n, i);
    } else {
      i :| i in victims && n.pollStart < i <= Passed(n) && Holds(s, i);
      HoldsSame(s, DoCompact(s, r), i);
    }
  }

  /** A write that commits at an id an otherwise exact poller has passed is missed by it. */
  lemma CommitBehind(s: State, w: nat, k: nat)
    requires Loose(s) && CanCommit(s, w) && Polls(s, k)
    requires var n := s.nodes[k]; n.sent == Span(s.log, n.pollStart, n.pollRev)
    requires var n := s.nodes[k]; n.pending.Some? ==>
              n.pending.value.batch == Span(s.log, n.pollRev, n.pending.value.rev)
    requires s.nodes[k].pollStart < s.writers[w].stage.id <= Passed(s.nodes[k])
    ensures Missed(DoCommit(s, w), k, s.writers[w].stage.id)
  {
    var n := s.nodes[k];
    assert WriterSound(s.log, s.next, s.writers[w]);
    SpanExact(s.log, n.pollStart, n.pollRev);
    if n.pending.Some? { SpanExact(s.log, n.pollRev, n.pending.value.rev); }
  }

  /** A missed change is never sent, in any continuation; once the
      poller has passed it, what it sent is not what was committed. */
  lemma {:induction false} MissedForever(s: State, steps: seq<Step>, k: nat, i: nat)
    requires Loose(s) && AnyRun(s, steps) && Missed(s, k, i)
    ensures var s' := Final(s, steps);
            && Missed(s', k, i)
            && (s'.nodes[k].pollStart < i <= s'.nodes[k].pollRev ==>
                s'.nodes[k].sent != Span(s'.log, s'.nodes[k].pollStart, s'.nodes[k].pollRev))
    decreases |steps|
  {
    if steps == [] {
      var n := s.nodes[k];
      assert !IsFill(s.log[i].name);
      SpanExact(s.log, n.pollStart, n.pollRev);
      if n.pollStart < i <= n.pollRev { assert Scan(i, s.log[i]).kv.modRev == i; }
    } else {
      MissedStep(s, steps[0], k, i);
      LooseStep(s, steps[0]);
      MissedForever(Apply(s, steps[0]), steps[1..], k, i);
    }
  }
}

/** The hazards do occur: runs from the initial state that lead to them. */
module LogHazardRuns {
  import opened Compaction
  import opened Kine
  import opened LogAnswers
  import opened LogHazards
  import opened LogInvariant
  import opened LogMachine
  import opened LogPoll
  import opened LogRuns
  import opened LogSteps
  import opened LogTheorems
  import opened LogWatch
  import opened Text
  import opened WatchSplice

  /** Some write-safe run leads to the state. */
  ghost predicate Reachable(s: State) {
    Reaches(INIT, s)
  }

  lemma ReachableInv(s: State)
    requires Reachable(s)
    ensures Inv(s)
  {
    var steps :| Leads(INIT, steps, s);
    InitInv();
    RunInv(INIT, steps);
  }

  lemma OneStep(s: State, step: Step)
    requires Reachable(s) && WriteSafe(s, step)
    ensures Reachable(Apply(s, step))
  {
    Extend(INIT, s, step);
  }

  /** A node has joined and nothing else has happened. */
  lemma Joined(k: nat) returns (s: State)
    ensures Reachable(s) && s.rows == INIT.rows && s.log == INIT.log && s.next == 2 && s.writers == map[]
    ensures s.nodes.Keys == {k} && !s.nodes[k].polling && s.nodes[k].pending.None? && s.nodes[k].sent == []
    ensures s.nodes[k].currentRev == 0
  {
    Here(INIT);
    s := Apply(INIT, Step.Join(k));
    OneStep(INIT, Step.Join(k));
  }

  lemma LatestNone(t: Table, name: string)
    requires forall j | j in t :: t[j].name != name
    ensures Latest(t, name) == 0
  {
  }

  lemma FirstRowTop(t: Table)
    requires t == INIT.rows
    ensures MaxId(t) == RESERVED_ID && CompactRev(t) == 0
  {
    assert t.Keys == {RESERVED_ID};
    assert RESERVED_ID in t.Keys;
  }

  const KEY := "a"
  const OTHER := "b"

  /** The key has been created at 2 and deleted at 3, and writer 2 has decided to create it again. */
  lemma TombstoneRead() returns (s: State)
    ensures Reachable(s) && s.rows.Keys == {1, 2, 3} && s.rows[1] == FIRST_ROW && s.rows[2].name == KEY
    ensures s.rows[3].name == KEY
    ensures s.rows[2].prev == 0 && s.rows[3].prev == 2 && s.rows[3].deleted
    ensures HasStage(s, 2) && s.writers[2].op == Create(KEY, "", 0) && s.writers[2].stage.Decided?
    ensures s.writers[2].row.prev == 3
    ensures s.writers[2].row.name == KEY && 3 !in s.writers
  {
    var s0 := Joined(0);
    assert ClientKey(KEY) && KEY != COMPACT_REV_KEY;
    LatestNone(s0.rows, KEY);
    var s1 := Commits(INIT, s0, 0, 0, Create(KEY, "", 0));
    assert s1.rows[2].name == KEY && s1.rows[1] == FIRST_ROW;
    LatestTip(s1.rows, KEY, 2);
    var s2 := Commits(INIT, s1, 1, 0, Delete(KEY, 0));
    LatestTip(s2.rows, KEY, 3);
    s := Apply(s2, Read(2, 0, Create(KEY, "", 0)));
    OneStep(s2, Read(2, 0, Create(KEY, "", 0)));
  }

  /** The table of that state: compacting to 3 removes the tombstone. */
  lemma TombstoneFacts(t: Table)
    requires t.Keys == {1, 2, 3} && t[1] == FIRST_ROW && t[2].name == KEY && t[3].name == KEY
    requires t[2].prev == 0 && t[3].prev == 2 && t[3].deleted
    ensures MaxId(t) == 3 && CompactRev(t) == 0 && 3 in Victims(t, 3) && !Taken(t, KEY, 3) && Core(t) == t
  {
    assert 3 in t.Keys;
    assert KEY != COMPACT_REV_KEY && ClientKey(KEY);
    assert !IsFill(COMPACT_REV_KEY) by { assert COMPACT_REV_KEY[..4] == "comp"; }
  }

  lemma FromInit(s: State, more: seq<Step>) returns (steps: seq<Step>)
    requires Reachable(s) && AnyRun(s, more)
    ensures AnyRun(INIT, steps) && Final(INIT, steps) == Final(s, more)
  {
    var first :| Leads(INIT, first, s);
    RunAppend(INIT, first, more);
    steps := first + more;
  }

  /** From the initial state, one key is created twice: the second create may commit although the
      key is live. */
  lemma DoubleCreateHappens() returns (steps: seq<Step>)
    ensures AnyRun(INIT, steps) && Enabled(Final(INIT, steps), Commit(2))
    ensures var s := Final(INIT, steps); s.writers[2].op == Create(KEY, "", 0) && KEY in View(s.log)
  {
    var s := TombstoneRead();
    ReachableInv(s);
    TombstoneFacts(s.rows);
    var compact, op := Step.Compact(0, 3, 0), Create(KEY, "", 0);
    DoubleCreate(s, compact, 2, 3, op);
    steps := FromInit(s, [compact] + (WriteSteps(3, s.writers[2].node, op) + CatchUp(2, s.writers[2].stage)));
  }

  // ----- pollers -----

  /** The poller stands at 1, writer 0 holds id 2 and writer 1 has committed at id 3. */
  lemma GapOpen() returns (s: State)
    ensures Reachable(s) && s.rows.Keys == {1, 3} && s.rows[1] == FIRST_ROW && Exact(s, 0)
    ensures s.rows[3].name == OTHER && s.rows[3].prev == 0 && !s.rows[3].deleted
    ensures HasStage(s, 0) && s.writers[0].stage.Reserved? && s.writers[0].stage.id == 2
    ensures s.writers[0].row.name == KEY && s.writers[0].row.prev == 0
    ensures Polls(s, 0) && s.nodes[0].pollStart == 1 == s.nodes[0].pollRev && s.nodes[0].pending.None?
  {
    var s1 := Polling();
    assert ClientKey(KEY) && ClientKey(OTHER) && KEY != OTHER;
    LatestNone(s1.rows, KEY);
    var s2 := Reserves(INIT, s1, 0, 0, Create(KEY, "", 0));
    LatestNone(s2.rows, OTHER);
    s := Commits(INIT, s2, 1, 0, Create(OTHER, "", 0));
    StillExact(s);
  }

  /** A poller that has read nothing is exact while everything committed is visible. */
  lemma StillExact(s: State)
    requires Polls(s, 0) && s.nodes[0].pending.None? && s.nodes[0].sent == []
    requires s.nodes[0].pollStart == s.nodes[0].pollRev
    requires forall i | i in s.log && s.nodes[0].pollRev < i :: Visible(s.rows, i)
    ensures Exact(s, 0)
  {
  }

  /** A node polls from the start. */
  lemma Polling() returns (s: State)
    ensures Reachable(s) && s.rows == INIT.rows && s.log == INIT.log && s.next == 2 && s.writers == map[]
    ensures Polls(s, 0) && s.nodes[0].pollStart == 1 == s.nodes[0].pollRev && s.nodes[0].pending.None?
    ensures s.nodes[0].sent == []
  {
    var s0 := Joined(0);
    FirstRowTop(s0.rows);
    s := Apply(s0, StartPoll(0));
    OneStep(s0, StartPoll(0));
  }

  lemma FillNext(s: State, k: nat, above: nat) returns (s': State)
    requires Reachable(s) && Polls(s, k) && s.nodes[k].pending.None? && above in s.rows && s.nodes[k].pollRev < above
    ensures Reachable(s') && s'.log == s.log && s'.writers == s.writers && s'.next == s.next && s'.nodes == s.nodes
    ensures var i := s.nodes[k].pollRev + 1; s'.rows == if i in s.rows then s.rows else s.rows[i := FillRow(i)]
    ensures forall i: nat | Missed(s, k, i) :: Missed(s', k, i)
  {
    s' := s;
    if s.nodes[k].pollRev + 1 !in s.rows {
      ReachableInv(s);
      NotFilled(s, s.nodes[k].pollRev + 1);
      s' := Apply(s, Fill(k));
      Onward(s, Fill(k), k);
    }
  }

  /** The poller goes on by one revision, filling it if need be. */
  lemma Advance(s: State, k: nat, above: nat) returns (s': State)
    requires Reachable(s) && Polls(s, k) && s.nodes[k].pending.None? && above in s.rows && s.nodes[k].pollRev < above
    ensures Reachable(s') && Polls(s', k) && s'.nodes[k].pending.None? && s'.log == s.log && s'.writers == s.writers
    ensures s'.next == s.next
    ensures s'.nodes[k].pollStart == s.nodes[k].pollStart && s'.nodes[k].pollRev == s.nodes[k].pollRev + 1
    ensures var i := s.nodes[k].pollRev + 1; s'.rows == if i in s.rows then s.rows else s.rows[i := FillRow(i)]
    ensures forall i: nat | Missed(s, k, i) :: Missed(s', k, i)
  {
    var i := s.nodes[k].pollRev + 1;
    var s1 := FillNext(s, k, above);
    var s2 := Apply(s1, Query(k, i));
    Onward(s1, Query(k, i), k);
    var s3 := Apply(s2, CasPoll(k));
    Onward(s2, CasPoll(k), k);
    s' := Apply(s3, Send(k));
    Onward(s3, Send(k), k);
  }

  /** A step leads on, and what was missed stays missed. */
  lemma Onward(s: State, step: Step, k: nat)
    requires Reachable(s) && WriteSafe(s, step)
    ensures Reachable(Apply(s, step))
    ensures forall i: nat | Missed(s, k, i) :: Missed(Apply(s, step), k, i)
  {
    OneStep(s, step);
    ReachableInv(s);
    forall i: nat | Missed(s, k, i) ensures Missed(Apply(s, step), k, i) { MissedStep(s, step, k, i); }
  }

  lemma NotFilled(s: State, i: nat)
    requires Reachable(s) && i !in s.rows
    ensures !Taken(s.rows, FillRow(i).name, 0)
  {
    ReachableInv(s);
    FillIsNotClient(i);
    if j :| j in s.rows && s.rows[j].name == FillRow(i).name && s.rows[j].prev == 0 {
      assert FillRow(j).name[4..] == Decimal(j) && FillRow(i).name[4..] == Decimal(i);
      DecimalInjective(i, j);
      assert false;
    }
  }

  /** The poller has filled id 2 and read on to 3. */
  lemma FilledAndPassed() returns (s: State)
    ensures Reachable(s) && s.rows.Keys == {1, 2, 3} && s.rows[1] == FIRST_ROW && s.rows[2] == FillRow(2)
    ensures s.rows[3].name == OTHER && s.rows[3].prev == 0 && !s.rows[3].deleted
    ensures HasStage(s, 0) && s.writers[0].stage.Reserved? && s.writers[0].stage.id == 2
    ensures s.writers[0].row.name == KEY && s.writers[0].row.prev == 0
    ensures Polls(s, 0) && s.nodes[0].pollStart == 1 && Passed(s.nodes[0]) == 3 && Exact(s, 0)
  {
    var s3 := GapOpen();
    var s4 := Filled(s3);
    s := Apply(s4, Query(0, 3));
    ExactOnward(s4, Query(0, 3));
  }

  lemma Filled(s: State) returns (s': State)
    requires Reachable(s) && Exact(s, 0) && Polls(s, 0) && s.nodes[0].pollRev == 1 && s.nodes[0].pending.None?
    requires s.rows.Keys == {1, 3}
    ensures Reachable(s') && Exact(s', 0) && s'.nodes == s.nodes && s'.writers == s.writers
    ensures s'.rows == s.rows[2 := FillRow(2)]
  {
    NotFilled(s, 2);
    ReachableInv(s);
    assert 3 in s.rows;
    ExactOnward(s, Fill(0));
    s' := Apply(s, Fill(0));
  }

  lemma ExactOnward(s: State, step: Step)
    requires Reachable(s) && Exact(s, 0) && Enabled(s, step) && !step.Compact? && !step.StartPoll?
    ensures Reachable(Apply(s, step)) && Exact(Apply(s, step), 0)
  {
    OneStep(s, step);
    ReachableInv(s);
    ExactIff(s, step, 0);
  }

  lemma FilledFacts(t: Table)
    requires t.Keys == {1, 2, 3} && t[1] == FIRST_ROW && t[2] == FillRow(2) && t[3].name == OTHER && t[3].prev == 0
    requires !t[3].deleted
    ensures MaxId(t) == 3 && CompactRev(t) == 0 && Victims(t, 2) == {2} && !Taken(t, KEY, 0)
  {
    FillIsNotClient(2);
    assert 3 in t.Keys;
    assert ClientKey(KEY) && KEY != OTHER;
  }

  /** From the initial state, a write commits at an id the poller has passed, and is never sent. */
  lemma FilledIdReusedHappens() returns (steps: seq<Step>)
    ensures AnyRun(INIT, steps) && Missed(Final(INIT, steps), 0, 2)
  {
    var s := FilledAndPassed();
    var compact := Step.Compact(0, 2, 0);
    ReachableInv(s);
    FilledFacts(s.rows);
    FilledIdReused(s, 0, 0, 2, 0);
    var s1 := DoCompact(s, 2);
    RunCons(s1, Commit(0), []);
    assert [Commit(0)] + [] == [Commit(0)];
    RunCons(s, compact, [Commit(0)]);
    steps := FromInit(s, [compact] + [Commit(0)]);
  }

  /** No write is pending, so any compaction is safe for writes. */
  ghost predicate Quiet(s: State) {
    forall w | w in s.writers :: s.writers[w].stage.Committed?
  }

  /** Key a is created at 2 and deleted at 3. */
  lemma CreatedAndDeleted(s0: State) returns (s: State)
    requires Reachable(s0) && 0 in s0.nodes && s0.rows == INIT.rows && s0.log == INIT.log && s0.next == 2
    requires s0.writers == map[]
    ensures Reachable(s) && s.nodes == s0.nodes && s.next == 4 && Quiet(s) && (forall w | w in s.writers :: w < 2)
    ensures s.rows.Keys == {1, 2, 3} && s.rows[1] == FIRST_ROW && s.rows[2].name == KEY && s.rows[3].name == KEY
    ensures s.rows[2].prev == 0 && s.rows[3].prev == 2 && s.rows[3].deleted && s.log == s.rows && !s.rows[2].deleted
  {
    assert ClientKey(KEY) && KEY != COMPACT_REV_KEY;
    LatestNone(s0.rows, KEY);
    var s1 := Commits(INIT, s0, 0, 0, Create(KEY, "", 0));
    LatestTip(s1.rows, KEY, 2);
    s := Commits(INIT, s1, 1, 0, Delete(KEY, 0));
  }

  /** Rows 2 and 3 were committed and are gone, and the poller stands at 1: it passes them
      without ever sending them. */
  lemma PassesMissed(s: State) returns (s': State)
    requires Reachable(s) && s.rows.Keys == {1, 4} && 2 in s.log && Polls(s, 0)
    requires s.nodes[0].pollStart == 1 == s.nodes[0].pollRev && s.nodes[0].pending.None? && s.nodes[0].sent == []
    ensures Reachable(s') && Polls(s', 0) && s'.nodes[0].pollStart == 1 && s'.nodes[0].pollRev == 4
    ensures s'.nodes[0].sent != Span(s'.log, 1, 4)
  {
    assert Missed(s, 0, 2);
    var s1 := Advance(s, 0, 4);
    var s2 := Advance(s1, 0, 4);
    s' := Advance(s2, 0, 4);
    ReachableInv(s');
    MissedForever(s', [], 0, 2);
  }

  lemma CompactedKeys(t: Table)
    requires {1, 2, 3} <= t.Keys <= {1, 2, 3, 4} && t[1] == FIRST_ROW && t[2].name == KEY && t[3].name == KEY
    requires t[2].prev == 0 && t[3].prev == 2 && t[3].deleted && !t[2].deleted
    requires 4 in t ==> t[4].name == OTHER && t[4].prev == 0 && !t[4].deleted
    ensures CompactRev(t) == 0 && MaxId(t) == (if 4 in t then 4 else 3) && CompactTo(t, 3).Keys == t.Keys - {2, 3}
  {
    assert KEY != COMPACT_REV_KEY && OTHER != COMPACT_REV_KEY;
    assert 3 in t.Keys && (4 in t ==> 4 in t.Keys);
    CompactedRows(t, 3);
    TwoVictims(t);
  }

  lemma TwoVictims(t: Table)
    requires {1, 2, 3} <= t.Keys <= {1, 2, 3, 4} && t[1].name == COMPACT_REV_KEY && !t[1].deleted
    requires t[3].name != COMPACT_REV_KEY
    requires t[2].prev == 0 && t[3].prev == 2 && t[3].deleted && !t[2].deleted
    ensures Victims(t, 3) == {2, 3}
  {
    assert 3 in t && t[3].prev in t && 2 in Victims(t, 3) && 3 in Victims(t, 3);
  }

  /** From the initial state: a compaction overtakes the poller, which then passes two changes it
      never sends. No write was pending when the compaction ran. */
  lemma UnreadHappens() returns (s: State)
    ensures Reachable(s) && Polls(s, 0) && s.nodes[0].sent != Span(s.log, s.nodes[0].pollStart, s.nodes[0].pollRev)
  {
    var s0 := Polling();
    var s1 := CreatedAndDeleted(s0);
    var s2 := ThenOther(s1);
    s := PassesMissed(s2);
  }

  /** Another key is created at 4, and the history of the first is compacted away. */
  lemma ThenOther(s1: State) returns (s: State)
    requires Reachable(s1) && s1.next == 4 && Quiet(s1) && 2 !in s1.writers && 0 in s1.nodes
    requires s1.rows.Keys == {1, 2, 3} && s1.rows[1] == FIRST_ROW && s1.rows[2].name == KEY && s1.rows[3].name == KEY
    requires s1.rows[2].prev == 0 && s1.rows[3].prev == 2 && s1.rows[3].deleted && !s1.rows[2].deleted
    ensures Reachable(s) && s.rows.Keys == {1, 4} && (forall i | i in s1.log :: i in s.log) && s.nodes == s1.nodes
  {
    assert ClientKey(OTHER) && OTHER != KEY && OTHER != COMPACT_REV_KEY;
    LatestNone(s1.rows, OTHER);
    var s2 := Commits(INIT, s1, 2, 0, Create(OTHER, "", 0));
    s := HistoryGone(s2);
  }

  lemma HistoryGone(s: State) returns (s': State)
    requires Reachable(s) && Quiet(s) && 0 in s.nodes && s.rows.Keys == {1, 2, 3, 4} && s.rows[1] == FIRST_ROW
    requires s.rows[2].name == KEY && s.rows[3].name == KEY && s.rows[4].name == OTHER && s.rows[4].prev == 0
    requires !s.rows[4].deleted
    requires s.rows[2].prev == 0 && s.rows[3].prev == 2 && s.rows[3].deleted && !s.rows[2].deleted
    ensures Reachable(s') && s'.rows.Keys == {1, 4} && s'.log == s.log && s'.nodes == s.nodes
  {
    CompactedKeys(s.rows);
    var compact := Step.Compact(0, 3, 0);
    QuietCompact(s, compact);
    s' := Apply(s, compact);
  }

  lemma QuietCompact(s: State, compact: Step)
    requires Reachable(s) && Quiet(s) && compact.Compact? && Enabled(s, compact)
    ensures Reachable(Apply(s, compact))
  {
    OneStep(s, compact);
  }

  /** From the initial state: with nothing retained, a compaction removes the highest row, a tombstone;
      a poller that starts then passes it later without sending it. */
  lemma TopGoneHappens() returns (s: State)
    ensures Reachable(s) && Polls(s, 0) && s.nodes[0].sent != Span(s.log, s.nodes[0].pollStart, s.nodes[0].pollRev)
  {
    var s0 := Joined(0);
    var s1 := CreatedAndDeleted(s0);
    CompactedKeys(s1.rows);
    var compact := Step.Compact(0, 3, 0);
    QuietCompact(s1, compact);
    var s2 := Apply(s1, compact);
    s := PollsLate(s2);
  }

  lemma PollsLate(s2: State) returns (s: State)
    requires Reachable(s2) && s2.rows.Keys == {1} && s2.next == 4 && 2 in s2.log && 2 !in s2.writers
    requires 0 in s2.nodes && !s2.nodes[0].polling && s2.nodes[0].pending.None? && s2.rows[1].name == COMPACT_REV_KEY
    ensures Reachable(s) && Polls(s, 0) && s.nodes[0].sent != Span(s.log, s.nodes[0].pollStart, s.nodes[0].pollRev)
  {
    assert 1 in s2.rows.Keys;
    ReachableInv(s2);
    assert NodeSound(s2.next, s2.nodes[0]);
    var s3 := Apply(s2, StartPoll(0));
    OneStep(s2, StartPoll(0));
    assert ClientKey(OTHER) && OTHER != COMPACT_REV_KEY;
    LatestNone(s3.rows, OTHER);
    var s4 := Commits(INIT, s3, 2, 0, Create(OTHER, "", 0));
    s := PassesMissed(s4);
  }

  // ----- watches -----

  lemma PollCons(s: State, step: Step, rest: seq<Step>, k: nat)
    requires Enabled(s, step) && PollSafe(s, step, k) && AnyRun(Apply(s, step), rest)
    requires PollSafeRun(Apply(s, step), rest, k)
    ensures AnyRun(s, [step] + rest) && PollSafeRun(s, [step] + rest, k)
    ensures Final(s, [step] + rest) == Final(Apply(s, step), rest)
  {
    assert ([step] + rest)[1..] == rest;
  }

  /** The poller reads on to a revision and sends what it has read. */
  lemma ReadsOn(s: State, k: nat, rev: nat) returns (steps: seq<Step>)
    requires CanQuery(s, k, rev)
    ensures AnyRun(s, steps) && PollSafeRun(s, steps, k)
    ensures Final(s, steps).log == s.log && k in Final(s, steps).nodes && Final(s, steps).nodes[k].pollRev == rev
  {
    var s1 := Apply(s, Query(k, rev));
    var s2 := Apply(s1, CasPoll(k));
    PollCons(s2, Send(k), [], k);
    PollCons(s1, CasPoll(k), [Send(k)] + [], k);
    steps := [Query(k, rev)] + ([CasPoll(k)] + ([Send(k)] + []));
    PollCons(s, Query(k, rev), [CasPoll(k)] + ([Send(k)] + []), k);
  }

  /** Writer 0 commits at 2 after all, and the poller reads on to 3. */
  lemma GapCloses(s: State) returns (steps: seq<Step>)
    requires CanCommit(s, 0) && s.writers[0].stage.id == 2 && s.rows.Keys == {1, 3}
    requires Polls(s, 0) && s.nodes[0].pollRev == 1 && s.nodes[0].pending.None?
    ensures AnyRun(s, steps) && PollSafeRun(s, steps, 0) && Final(s, steps).log == DoCommit(s, 0).log
    ensures 0 in Final(s, steps).nodes && Final(s, steps).nodes[0].pollRev == 3
  {
    var s1 := Apply(s, Commit(0));
    var rest := ReadsOn(s1, 0, 3);
    steps := [Commit(0)] + rest;
    PollCons(s, Commit(0), rest, 0);
  }

  /** The table of that watch: its query finds row 3 and so meets the live stream there. */
  lemma QueryFindsTop(t: Table)
    requires t.Keys == {1, 3} && t[1] == FIRST_ROW && t[3].name == OTHER && t[3].prev == 0
    ensures MaxId(t) == 3 && CompactRev(t) == 0 && Edge(t, "", "", 1, 1) == 3 && !Taken(t, KEY, 0)
  {
    assert 3 in t.Keys;
    assert KEY != COMPACT_REV_KEY && OTHER != COMPACT_REV_KEY && KEY != OTHER;
    assert |Select(t, "", "", 1, 3)| > 0;
  }

  /** From the initial state, with no compaction and no fill: row 3 is visible before row 2. A watch
      of revision 2 queries in between, and never delivers change 2. */
  lemma WatchMissHappens() returns (s: State, steps: seq<Step>)
    ensures Reachable(s) && Polls(s, 0) && Exact(s, 0) && Accepted(s.rows, 2) && AnyRun(s, steps)
    ensures PollSafeRun(s, steps, 0)
    ensures var t, p := Final(s, steps), s.nodes[0].pollRev;
            && 0 in t.nodes && MaxId(s.rows) <= t.nodes[0].pollRev
            && NoFills(Delivered(s.rows, t.log, "", "", Start(2), p, t.nodes[0].pollRev))
               != Expected(t.log, "", "", Start(2), t.nodes[0].pollRev)
  {
    s := GapOpen();
    QueryFindsTop(s.rows);
    ReachableInv(s);
    steps := GapCloses(s);
    HiddenRow(s, 0, "", "", 1, 3);
    WatchExact(s, [], steps, 0, "", "", 2);
  }

  // ----- lists -----

  /** A node has joined, and has cached the highest id of the fresh table. */
  lemma Cached(k: nat) returns (s: State)
    ensures Reachable(s) && s.rows == INIT.rows && s.log == INIT.log && s.next == 2 && s.writers == map[]
    ensures s.nodes.Keys == {k} && s.nodes[k].currentRev == 1
  {
    var s0 := Joined(k);
    FirstRowTop(s0.rows);
    var s1 := Apply(s0, LazyRead(k));
    OneStep(s0, LazyRead(k));
    s := Apply(s1, LazyCas(k, 1));
    OneStep(s1, LazyCas(k, 1));
  }

  /** From the initial state: another node has written at revision 2, and a list of an empty range at that
      revision fails as if it did not exist yet. */
  lemma ListLagsHappens() returns (s: State)
    ensures Reachable(s) && MaxId(s.rows) == 2 && 0 in s.nodes && ListRequest(s, 0, KEY, "", 2).ErrFutureRev?
  {
    var s0 := Cached(0);
    var s1 := Apply(s0, Step.Join(1));
    OneStep(s0, Step.Join(1));
    assert ClientKey(OTHER) && KEY != OTHER && KEY != COMPACT_REV_KEY;
    LatestNone(s1.rows, OTHER);
    s := Commits(INIT, s1, 0, 1, Create(OTHER, "", 0));
    assert s.rows.Keys == {1, 2} && 2 in s.rows.Keys;
    assert ListAt(s.rows, KEY, "", 2, false) == map[];
  }
}

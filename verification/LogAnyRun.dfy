/** What holds in every run, however compactions interleave with writes: the table is a part of the
    log with every removal justified, committed rows stay as they are, the cached revision of a
    node only rises and stays within the ids handed out, and the stored compact revision only
    rises and stays out of the retained tail. */
module LogAnyRun {
  import opened Compaction
  import opened Compactor
  import opened Kine
  import opened LogInvariant
  import opened LogMachine

  // ----- one table step -----

  /** A deleted row is a superseded row or a tombstone, at or below the target; the reserved row
      is never among them. */
  lemma VictimFacts(core: Table, log: Table, next: nat, r: nat, v: nat)
    requires Sound(core, log, next) && v in Victims(core, r)
    ensures v in core && v in log && v <= r && v != RESERVED_ID
    ensures Justified(log, v, r)
  {
    if !(core[v].deleted && v <= r) {
      var k :| k in core && core[k].name != COMPACT_REV_KEY && core[k].prev != 0 && k <= r && core[k].prev == v;
      assert LinkOk(log, k);
      assert log[k].name == log[v].name && v < k <= r;
    }
  }

  lemma SoundBackward(core: Table, log: Table, next: nat)
    requires Sound(core, log, next)
    ensures Backward(core)
  {
    forall k | k in core && core[k].name != COMPACT_REV_KEY ensures core[k].prev < k {
      assert LinkOk(log, k);
    }
  }

  lemma CompactSound(core: Table, log: Table, next: nat, r: nat)
    requires Sound(core, log, next) && core[RESERVED_ID].prev <= r
    ensures Sound(CompactTo(core, r), log, next) && CompactTo(core, r)[RESERVED_ID].prev == r
  {
    var core', c := CompactTo(core, r), core[RESERVED_ID].prev;
    CompactedRows(core, r);
    assert RESERVED_ID in core' by {
      if RESERVED_ID in Victims(core, r) { VictimFacts(core, log, next, r, RESERVED_ID); }
    }
    forall i | i in log && i !in core' ensures Justified(log, i, r) {
      if i in core {
        VictimFacts(core, log, next, r, i);
      } else {
        assert Justified(log, i, c);
      }
    }
  }

  lemma InsertRemovals(core: Table, log: Table, i: nat, row: Row, c: nat)
    requires Removals(core, log, c) && i !in log
    ensures Removals(core[i := row], log[i := row], c)
  {
    var core', log' := core[i := row], log[i := row];
    forall k | k in log' && k !in core' ensures Justified(log', k, c) {
      assert Justified(log, k, c);
      if !(log[k].deleted && k <= c) {
        var j :| j in log && log[j].name == log[k].name && k < j <= c;
        assert j in log' && log'[j].name == log'[k].name;
      }
    }
  }

  /** A row at an unused id, linked to an older row of its name or to nothing. */
  lemma InsertSound(core: Table, log: Table, next: nat, i: nat, row: Row)
    requires Sound(core, log, next) && i !in log && 0 < i < next && ClientKey(row.name)
    requires row.prev != 0 ==> row.prev in log && log[row.prev].name == row.name && row.prev < i
    ensures Sound(core[i := row], log[i := row], next)
  {
    var log' := log[i := row];
    InsertRemovals(core, log, i, row, core[RESERVED_ID].prev);
    forall k | k in log' ensures LinkOk(log', k) {
      if k != i { assert LinkOk(log, k); }
    }
  }

  // ----- the table and its core under compaction -----

  lemma CoreVictims(rows: Table, next: nat, r: nat, v: nat)
    requires Fills(rows, next) && v in Core(rows)
    ensures v in Victims(rows, r) <==> v in Victims(Core(rows), r)
  {
    var core := Core(rows);
    if v in Victims(rows, r) && !(rows[v].deleted && v <= r) {
      var k :| k in rows && rows[k].name != COMPACT_REV_KEY && rows[k].prev != 0 && k <= r && rows[k].prev == v;
      assert k in core && core[k].name != COMPACT_REV_KEY && core[k].prev != 0 && core[k].prev in core;
    }
    if v in Victims(core, r) && !(core[v].deleted && v <= r) {
      var k :| k in core && core[k].name != COMPACT_REV_KEY && core[k].prev != 0 && k <= r && core[k].prev == v;
      assert k in rows && rows[k].name != COMPACT_REV_KEY && rows[k].prev != 0 && rows[k].prev in rows;
    }
  }

  /** Compacting the table compacts its core. */
  lemma CoreCompact(rows: Table, next: nat, r: nat)
    requires Fills(rows, next)
    ensures Core(CompactTo(rows, r)) == CompactTo(Core(rows), r)
    ensures Fills(CompactTo(rows, r), next)
  {
    var a, b := Core(CompactTo(rows, r)), CompactTo(Core(rows), r);
    CompactedRows(rows, r);
    CompactedRows(Core(rows), r);
    forall i ensures i in a <==> i in b {
      if i in Core(rows) { CoreVictims(rows, next, r, i); }
    }
    forall i | i in a ensures a[i] == b[i] { }
    CompactFills(rows, next, r);
  }

  lemma CompactFills(rows: Table, next: nat, r: nat)
    requires Fills(rows, next)
    ensures Fills(CompactTo(rows, r), next)
  {
    CompactedRows(rows, r);
    forall i | i in CompactTo(rows, r) && IsFill(CompactTo(rows, r)[i].name)
      ensures CompactTo(rows, r)[i] == FillRow(i)
    {
      FillIsNotClient(i);
    }
  }

  // ----- every step -----

  lemma MaxIdBounds(s: State)
    requires Loose(s)
    ensures MaxId(s.rows) in s.rows && RESERVED_ID <= MaxId(s.rows) < s.next
  {
    assert RESERVED_ID in Core(s.rows);
    assert RESERVED_ID in s.rows.Keys;
    assert MaxId(s.rows) in s.rows.Keys;
  }

  lemma CommitLoose(s: State, w: nat)
    requires Loose(s) && CanCommit(s, w)
    ensures Loose(DoCommit(s, w))
    ensures Core(DoCommit(s, w).rows) == Core(s.rows)[s.writers[w].stage.id := NewRow(s.rows, s.writers[w])]
  {
    var s', wr := DoCommit(s, w), s.writers[w];
    var id, row := wr.stage.id, NewRow(s.rows, wr);
    assert WriterSound(s.log, s.next, wr);
    CoreInsert(s.rows, id, row);
    InsertSound(Core(s.rows), s.log, s.next, id, row);
    forall v | v in s'.writers ensures WriterSound(s'.log, s'.next, s'.writers[v]) {
      assert WriterSound(s.log, s.next, s.writers[v]);
    }
  }

  lemma FillLoose(s: State, k: nat)
    requires Loose(s) && CanFill(s, k)
    ensures Loose(DoFill(s, k)) && Core(DoFill(s, k).rows) == Core(s.rows)
  {
    var i := Passed(s.nodes[k]) + 1;
    FillIsNotClient(i);
    CoreInsert(s.rows, i, FillRow(i));
  }

  lemma CompactLoose(s: State, from: nat, r: nat)
    requires Loose(s) && CanCompact(s, from, r)
    ensures Loose(DoCompact(s, r)) && Core(DoCompact(s, r).rows) == CompactTo(Core(s.rows), r)
    ensures CompactRev(DoCompact(s, r).rows) == r
  {
    StoredCompactRev(s);
    CoreCompact(s.rows, s.next, r);
    CompactSound(Core(s.rows), s.log, s.next, r);
    StoredCompactRev(DoCompact(s, r));
  }

  lemma ReadLoose(s: State, w: nat, k: nat, op: Op)
    requires Loose(s) && CanRead(s, w, k, op)
    ensures Loose(DoRead(s, w, k, op))
  {
    var p := Latest(s.rows, op.key);
    CoreLatest(s.rows, op.key);
    assert p in s.rows ==> p in s.log && s.log[p].name == op.key by {
      if p in s.rows { assert p in Core(s.rows); }
    }
  }

  lemma ReserveLoose(s: State, w: nat)
    requires Loose(s) && (CanReserve(s, w, true) || CanReserve(s, w, false))
    ensures Loose(DoReserve(s, w))
  {
    var s' := DoReserve(s, w);
    forall v | v in s'.writers ensures WriterSound(s'.log, s'.next, s'.writers[v]) {
      assert WriterSound(s.log, s.next, s.writers[v]);
    }
    forall v, u | v in s'.writers && u in s'.writers && v != u && s'.writers[v].stage.Reserved? &&
        s'.writers[u].stage.Reserved?
      ensures s'.writers[v].stage.id != s'.writers[u].stage.id
    {
      assert WriterSound(s.log, s.next, s.writers[v]) && WriterSound(s.log, s.next, s.writers[u]);
    }
    forall k | k in s.nodes ensures NodeSound(s'.next, s.nodes[k]) { assert NodeSound(s.next, s.nodes[k]); }
  }

  /** The remaining steps of a writer. */
  predicate QuietWriterStep(step: Step) {
    step.Load? || step.Abort? || step.CasAppend?
  }

  lemma QuietWriterLoose(s: State, step: Step)
    requires Loose(s) && Enabled(s, step) && QuietWriterStep(step)
    ensures Loose(Apply(s, step))
  {
    var s' := Apply(s, step);
    assert WriterSound(s.log, s.next, s.writers[step.writer]);
    forall w | w in s'.writers ensures WriterSound(s'.log, s'.next, s'.writers[w]) {
      assert WriterSound(s.log, s.next, s.writers[w]);
    }
    forall k | k in s'.nodes ensures NodeSound(s'.next, s'.nodes[k]) { assert NodeSound(s.next, s.nodes[k]); }
  }

  /** The steps that change one node only. */
  predicate NodeStep(step: Step) {
    || step.Join? || step.LazyRead? || step.LazyCas? || step.StartPoll? || step.Publish? || step.Query? ||
        step.CasPoll? || step.Send?
  }

  lemma SetNodeLoose(s: State, k: nat, n: Node)
    requires Loose(s) && NodeSound(s.next, n)
    ensures Loose(SetNode(s, k, n))
  {
  }

  predicate PollStep(step: Step) {
    step.StartPoll? || step.Publish? || step.Query? || step.CasPoll? || step.Send?
  }

  lemma PollStepNode(s: State, step: Step)
    requires Enabled(s, step) && PollStep(step) && NodeSound(s.next, s.nodes[step.node])
    requires MaxId(s.rows) < s.next && (step.Query? ==> step.rev < s.next)
    ensures step.node in Apply(s, step).nodes && NodeSound(s.next, Apply(s, step).nodes[step.node])
    ensures Apply(s, step) == SetNode(s, step.node, Apply(s, step).nodes[step.node])
  {
  }

  lemma PollStepLoose(s: State, step: Step)
    requires Loose(s) && Enabled(s, step) && PollStep(step)
    ensures Loose(Apply(s, step))
  {
    MaxIdBounds(s);
    if step.Query? { assert step.rev in s.rows; }
    PollStepNode(s, step);
    SetNodeLoose(s, step.node, Apply(s, step).nodes[step.node]);
  }

  lemma NodeLoose(s: State, step: Step)
    requires Loose(s) && Enabled(s, step) && NodeStep(step)
    ensures Loose(Apply(s, step))
  {
    if step.Join? || step.LazyRead? || step.LazyCas? {
      MaxIdBounds(s);
      var k := step.node;
      assert k in s.nodes ==> NodeSound(s.next, s.nodes[k]);
      SetNodeLoose(s, k, Apply(s, step).nodes[k]);
    } else {
      PollStepLoose(s, step);
    }
  }

  lemma LooseStep(s: State, step: Step)
    requires Loose(s) && Enabled(s, step)
    ensures Loose(Apply(s, step))
  {
    if step.Commit? { CommitLoose(s, step.writer); }
    else if step.Fill? { FillLoose(s, step.node); }
    else if step.Compact? { CompactLoose(s, step.from, Target(s, step)); }
    else if step.Read? { ReadLoose(s, step.writer, step.node, step.op); }
    else if step.Reserve? || step.Retry? { ReserveLoose(s, step.writer); }
    else if QuietWriterStep(step) { QuietWriterLoose(s, step); }
    else { NodeLoose(s, step); }
  }

  lemma {:induction false} LooseRun(s: State, steps: seq<Step>)
    requires Loose(s) && AnyRun(s, steps)
    ensures Loose(Final(s, steps))
    decreases |steps|
  {
    if steps != [] {
      LooseStep(s, steps[0]);
      LooseRun(Apply(s, steps[0]), steps[1..]);
    }
  }

  // ----- the log -----

  ghost predicate Grown(log: Table, log': Table) {
    forall i | i in log :: i in log' && log'[i] == log[i]
  }

  lemma StepGrows(s: State, step: Step)
    requires Loose(s) && Enabled(s, step)
    ensures Grown(s.log, Apply(s, step).log)
    ensures !step.Commit? ==> Apply(s, step).log == s.log
  {
    if step.Commit? { assert WriterSound(s.log, s.next, s.writers[step.writer]); }
  }

  /** Committed rows are never changed or replaced. */
  lemma {:induction false} LogGrows(s: State, steps: seq<Step>)
    requires Loose(s) && AnyRun(s, steps)
    ensures Grown(s.log, Final(s, steps).log)
    decreases |steps|
  {
    if steps != [] {
      StepGrows(s, steps[0]);
      LooseStep(s, steps[0]);
      LogGrows(Apply(s, steps[0]), steps[1..]);
    }
  }

  /** Rows above the compact revision are never missing, so reading on from there misses nothing. */
  lemma AfterInvisible(s: State, lo: nat, hi: nat)
    requires Loose(s) && CompactRev(s.rows) <= lo
    ensures Span(s.rows, lo, hi) == Span(s.log, lo, hi)
  {
    StoredCompactRev(s);
    var core, c := Core(s.rows), CompactRev(s.rows);
    forall i | lo < i <= hi && i in s.log ensures i in core {
      assert i in core || Justified(s.log, i, c);
    }
    SpanFrame(core, s.log, lo, hi);
    SpanCore(s.rows, lo, hi);
  }

  lemma {:induction false} SpanCore(rows: Table, lo: nat, hi: nat)
    ensures Span(Core(rows), lo, hi) == Span(rows, lo, hi)
    decreases hi
  {
    if lo < hi { SpanCore(rows, lo, hi - 1); }
  }

  // ----- the cached revision -----

  /** One step never lowers a cached revision, and never puts it past the ids handed out. */
  lemma CachedRevStep(s: State, step: Step, k: nat)
    requires Loose(s) && Enabled(s, step) && k in s.nodes
    ensures k in Apply(s, step).nodes
    ensures s.nodes[k].currentRev <= Apply(s, step).nodes[k].currentRev
  {
    assert NodeSound(s.next, s.nodes[k]);
    if step.CasAppend? { assert WriterSound(s.log, s.next, s.writers[step.writer]); }
  }

  lemma {:induction false} CachedRevRises(s: State, steps: seq<Step>, k: nat)
    requires Loose(s) && AnyRun(s, steps) && k in s.nodes
    ensures k in Final(s, steps).nodes
    ensures s.nodes[k].currentRev <= Final(s, steps).nodes[k].currentRev < Final(s, steps).next
    decreases |steps|
  {
    if steps == [] {
      assert NodeSound(s.next, s.nodes[k]);
    } else {
      LooseStep(s, steps[0]);
      CachedRevStep(s, steps[0], k);
      CachedRevRises(Apply(s, steps[0]), steps[1..], k);
    }
  }

  // ----- the stored compact revision -----

  lemma RowsBackward(s: State)
    requires Loose(s)
    ensures Backward(s.rows)
  {
    SoundBackward(Core(s.rows), s.log, s.next);
    forall k | k in s.rows && s.rows[k].name != COMPACT_REV_KEY ensures s.rows[k].prev < k {
      assert k in Core(s.rows) || s.rows[k] == FillRow(k);
    }
  }

  /** A committed compaction raises the stored revision, stays out of the retained tail and, when
      that tail is not empty, keeps the highest row. */
  lemma CompactStepRaises(s: State, step: Step)
    requires Loose(s) && Enabled(s, step) && step.Compact?
    ensures step.from == CompactRev(s.rows) && step.from < step.target && step.from < MaxId(s.rows) - step.minRetain
    ensures var c := CompactRev(Apply(s, step).rows);
            && CompactRev(s.rows) < c <= step.target && c <= MaxId(s.rows) - step.minRetain
            && (c == step.target || c == MaxId(s.rows) - step.minRetain)
    ensures step.minRetain >= 1 ==> MaxId(Apply(s, step).rows) == MaxId(s.rows)
  {
    var r := Target(s, step);
    CompactLoose(s, step.from, r);
    RowsBackward(s);
    MaxIdKept(s.rows, r);
  }

  /** A compaction transaction commits exactly if its caller knows the stored revision and something is left
      to compact, below the target and out of the retained tail. */
  lemma CompactCommits(s: State, from: nat, target: int, minRetain: nat)
    ensures Enabled(s, Step.Compact(from, target, minRetain)) <==>
              from == CompactRev(s.rows) && from < target && from < MaxId(s.rows) - minRetain
  {
  }

  lemma InsertCompactRev(rows: Table, i: nat, row: Row)
    requires i !in rows && row.name != COMPACT_REV_KEY
    ensures CompactRev(rows[i := row]) == CompactRev(rows)
  {
    var u := rows[i := row];
    assert forall j | j in rows && rows[j].name == COMPACT_REV_KEY :: j in u && u[j] == rows[j];
    assert forall j | j in u && u[j].name == COMPACT_REV_KEY :: j in rows && u[j] == rows[j];
  }

  lemma OtherStepsKeepCompactRev(s: State, step: Step)
    requires Loose(s) && Enabled(s, step) && !step.Compact?
    ensures CompactRev(Apply(s, step).rows) == CompactRev(s.rows)
  {
    if step.Commit? { CommitKeepsCompactRev(s, step.writer); }
    else if step.Fill? { FillKeepsCompactRev(s, step.node); }
  }

  lemma CommitKeepsCompactRev(s: State, w: nat)
    requires Loose(s) && CanCommit(s, w)
    ensures CompactRev(DoCommit(s, w).rows) == CompactRev(s.rows)
  {
    assert WriterSound(s.log, s.next, s.writers[w]);
    InsertCompactRev(s.rows, s.writers[w].stage.id, NewRow(s.rows, s.writers[w]));
  }

  lemma FillKeepsCompactRev(s: State, k: nat)
    requires CanFill(s, k)
    ensures CompactRev(DoFill(s, k).rows) == CompactRev(s.rows)
  {
    var i := Passed(s.nodes[k]) + 1;
    FillIsNotClient(i);
    InsertCompactRev(s.rows, i, FillRow(i));
  }

  /** However many nodes compact from however stale arguments, the stored revision only rises. */
  lemma {:induction false} CompactRevRises(s: State, steps: seq<Step>)
    requires Loose(s) && AnyRun(s, steps)
    ensures CompactRev(s.rows) <= CompactRev(Final(s, steps).rows)
    decreases |steps|
  {
    if steps != [] {
      LooseStep(s, steps[0]);
      if steps[0].Compact? { CompactStepRaises(s, steps[0]); } else { OtherStepsKeepCompactRev(s, steps[0]); }
      CompactRevRises(Apply(s, steps[0]), steps[1..]);
    }
  }

  // ----- nodes stay -----

  /** Every write was issued at a node that has joined. */
  ghost predicate Housed(s: State) {
    forall w | w in s.writers :: s.writers[w].node in s.nodes
  }

  lemma HousedStep(s: State, step: Step)
    requires Housed(s) && Enabled(s, step)
    ensures Housed(Apply(s, step))
  {
  }

  lemma {:induction false} HousedRun(s: State, steps: seq<Step>)
    requires Housed(s) && AnyRun(s, steps)
    ensures Housed(Final(s, steps))
    decreases |steps|
  {
    if steps != [] {
      HousedStep(s, steps[0]);
      HousedRun(Apply(s, steps[0]), steps[1..]);
    }
  }

  /** A write that is refused or given up leaves nothing behind but the id it may have reserved. */
  lemma AbortedIsGone(s: State, w: nat)
    requires CanAbort(s, w)
    ensures w !in DoAbort(s, w).writers && forall v | v in s.writers && v != w :: v in DoAbort(s, w).writers
    ensures DoAbort(s, w) == s.(writers := DoAbort(s, w).writers)
  {
  }
}

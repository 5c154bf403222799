/** Every step of a write-safe run keeps its invariant. */
module LogSteps {
  import opened Kine
  import opened LogAnyRun
  import opened LogCompact
  import opened LogInsert
  import opened LogInvariant
  import opened LogMachine

  lemma DecideCore(rows: Table, op: Op)
    requires ClientKey(op.key) && 0 !in rows
    ensures Decide(Core(rows), op) == Decide(rows, op)
  {
    CoreLatest(rows, op.key);
  }

  lemma DecidedOk(core: Table, log: Table, next: nat, k: nat, op: Op)
    requires TableOk(core, log, next) && ClientKey(op.key) && Decide(core, op).Append?
    ensures WriterOk(core, log, next, Writer(k, op, Decide(core, op).row, Decided))
  {
    LatestIsTip(core, op.key);
  }

  lemma ReadInv(s: State, w: nat, k: nat, op: Op)
    requires Inv(s) && CanRead(s, w, k, op)
    ensures Inv(DoRead(s, w, k, op))
  {
    LooseStep(s, Read(w, k, op));
    DecideCore(s.rows, op);
    DecidedOk(Core(s.rows), s.log, s.next, k, op);
  }

  lemma LaterWriter(core: Table, log: Table, next: nat, w: Writer, w': Writer, next': nat)
    requires WriterOk(core, log, next, w) && WriterSound(log, next', w') && w'.op == w.op && w'.row == w.row
    requires w'.stage.Reserved? ==> w.stage == w'.stage || w'.stage.id == next
    requires !w'.stage.Committed? ==> !w.stage.Committed?
    requires forall i | i in log :: i < next
    ensures WriterOk(core, log, next', w')
  {
  }

  /** Steps of a writer that leave table and log alone. */
  lemma WriterStepInv(s: State, step: Step)
    requires Inv(s) && Enabled(s, step)
    requires (step.Load? || step.Reserve? || step.Retry? || step.Abort? || step.CasAppend?)
    ensures Inv(Apply(s, step))
  {
    var s' := Apply(s, step);
    LooseStep(s, step);
    forall v | v in s'.writers ensures WriterOk(Core(s.rows), s.log, s'.next, s'.writers[v]) {
      assert WriterOk(Core(s.rows), s.log, s.next, s.writers[v]) && WriterSound(s'.log, s'.next, s'.writers[v]);
      LaterWriter(Core(s.rows), s.log, s.next, s.writers[v], s'.writers[v], s'.next);
    }
  }

  lemma OldValueCore(rows: Table, next: nat, p: nat)
    requires Fills(rows, next)
    ensures OldValue(rows, p) == OldValue(Core(rows), p)
  {
  }

  lemma CommitMay(s: State, w: nat)
    requires Inv(s) && CanCommit(s, w)
    ensures MayCommit(Core(s.rows), s.log, s.next, s.writers[w])
    ensures NewRow(s.rows, s.writers[w]) == Stored(Core(s.rows), s.writers[w])
  {
    var wr := s.writers[w];
    assert WriterOk(Core(s.rows), s.log, s.next, wr);
    CoreTaken(s.rows, wr.row.name, wr.row.prev);
    OldValueCore(s.rows, s.next, wr.row.prev);
  }

  lemma CommitInv(s: State, w: nat)
    requires Inv(s) && CanCommit(s, w)
    ensures Inv(DoCommit(s, w))
  {
    var s', wr, core := DoCommit(s, w), s.writers[w], Core(s.rows);
    CommitLoose(s, w);
    CommitMay(s, w);
    CommitTable(core, s.log, s.next, wr);
    forall v | v in s'.writers ensures WriterOk(Core(s'.rows), s'.log, s'.next, s'.writers[v]) {
      if v != w {
        assert WriterOk(core, s.log, s.next, s.writers[v]);
        CommitOther(core, s.log, s.next, wr, s.writers[v]);
      } else {
        assert WriterOk(core, s.log, s.next, wr) && WriterSound(s'.log, s'.next, s'.writers[w]);
      }
    }
  }

  lemma CompactInv(s: State, from: nat, r: nat)
    requires Inv(s) && CanCompact(s, from, r) && SafeForWrites(s, r)
    ensures Inv(DoCompact(s, r))
  {
    var s', core := DoCompact(s, r), Core(s.rows);
    CompactLoose(s, from, r);
    StoredCompactRev(s);
    CompactTable(core, s.log, s.next, r);
    forall v | v in s'.writers ensures WriterOk(Core(s'.rows), s'.log, s'.next, s'.writers[v]) {
      CompactWriter(core, s.log, s.next, r, s.writers[v]);
    }
  }

  lemma NodeStepInv(s: State, step: Step)
    requires Inv(s) && Enabled(s, step) && NodeStep(step)
    ensures Inv(Apply(s, step))
  {
    LooseStep(s, step);
  }

  lemma StepInv(s: State, step: Step)
    requires Inv(s) && WriteSafe(s, step)
    ensures Inv(Apply(s, step))
  {
    if step.Compact? { CompactInv(s, step.from, Target(s, step)); }
    else if step.Read? { ReadInv(s, step.writer, step.node, step.op); }
    else if step.Commit? { CommitInv(s, step.writer); }
    else if step.Fill? { FillLoose(s, step.node); }
    else if NodeStep(step) { NodeStepInv(s, step); }
    else { WriterStepInv(s, step); }
  }

  /** The invariant holds after every write-safe run of a fresh database. */
  lemma {:induction false} RunInv(s: State, steps: seq<Step>)
    requires Inv(s) && WriteSafeRun(s, steps)
    ensures AnyRun(s, steps) && Inv(Final(s, steps))
    decreases |steps|
  {
    if steps != [] {
      StepInv(s, steps[0]);
      RunInv(Apply(s, steps[0]), steps[1..]);
    }
  }
}

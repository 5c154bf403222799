/** The condition on compactions is exact for compare-and-swap: a compaction is safe for the pending
    writes if and only if every commit of every write-safe continuation is atomic. */
module LogAtomic {
  import opened Compaction
  import opened Kine
  import opened LogAnyRun
  import opened LogCompact
  import opened LogHazards
  import opened LogInvariant
  import opened LogMachine
  import opened LogRuns
  import opened LogSteps
  import opened LogTheorems

  /** Committing the write is an atomic compare-and-swap: its condition holds, and its effect is the
      operation's. */
  ghost predicate Atomic(s: State, w: nat)
    requires CanCommit(s, w)
  {
    var op, id := s.writers[w].op, s.writers[w].stage.id;
    Allowed(View(s.log), op) && View(DoCommit(s, w).log) == Effect(View(s.log), op, id)
  }

  /** No write-safe continuation commits a write that is not atomic. */
  ghost predicate StaysAtomic(s: State) {
    forall s', w | Reaches(s, s') && CanCommit(s', w) :: Atomic(s', w)
  }

  // ----- safe compactions -----

  lemma InvStaysAtomic(s: State)
    requires Inv(s)
    ensures StaysAtomic(s)
  {
    forall s', w | Reaches(s, s') && CanCommit(s', w) ensures Atomic(s', w) {
      var steps :| Leads(s, steps, s');
      RunInv(s, steps);
      CommitIsAtomic(s', w);
    }
  }

  // ----- unsafe compactions -----

  /** A commit below a newer row of its key has no effect on the store. */
  lemma CommitBelow(s: State, w: nat, j: nat)
    requires CanCommit(s, w) && Fits(s.writers[w].op, s.writers[w].row)
    requires j in s.log && s.log[j].name == s.writers[w].row.name && s.writers[w].stage.id < j
    requires s.writers[w].stage.id !in s.log
    ensures !Atomic(s, w)
  {
    var log, n, id, op := s.log, s.writers[w].row.name, s.writers[w].stage.id, s.writers[w].op;
    var log', q := DoCommit(s, w).log, Latest(log, n);
    assert q in log && log[q].name == n && id < q;
    LatestTip(log', n, q);
    ViewAt(log, n);
    ViewAt(log', n);
    if Allowed(View(log), op) {
      var after := Effect(View(log), op, id);
      assert n in after ==> after[n].kv.modRev == id;
      assert n in View(log') ==> View(log')[n].kv.modRev == q;
    }
  }

  lemma FreshWriter(writers: map<nat, Writer>) returns (b: nat)
    ensures b !in writers
  {
    b := Max(writers.Keys) + 1;
    assert b in writers.Keys ==> b <= Max(writers.Keys);
  }

  /** What the store is like once the operation has been carried out. */
  lemma NoLongerAllowed(log: Table, next: nat, op: Op, row: Row)
    requires Allowed(View(log), op) && row.name == op.key && (row.deleted <==> op.Delete?)
    requires forall i | i in log :: i < next
    ensures !Allowed(View(log[next := row]), op)
  {
    InsertView(log, next, row);
    ViewAt(log, op.key);
  }

  /** The index has room for a row that replaces the latest one. */
  lemma LatestIsFree(s: State, name: string)
    requires Loose(s) && TableOk(Core(s.rows), s.log, s.next) && ClientKey(name)
    ensures !Taken(s.rows, name, Latest(s.rows, name))
  {
    var core, q := Core(s.rows), Latest(s.rows, name);
    CoreLatest(s.rows, name);
    CoreTaken(s.rows, name, q);
    LatestIsTip(core, name);
    if Taken(core, name, q) { RefusedIsStale(core, s.log, s.next, name, q); }
  }

  /** A write that would still be atomic, but does not replace the latest row: the same operation,
      issued again, commits first, and the write is accepted all the same. */
  lemma Rival(s0: State, s: State, w: nat) returns (s': State)
    requires Reaches(s0, s) && Loose(s) && TableOk(Core(s.rows), s.log, s.next) && CanCommit(s, w)
    requires Fits(s.writers[w].op, s.writers[w].row) && Latest(s.rows, s.writers[w].op.key) != s.writers[w].row.prev
    requires Allowed(View(s.log), s.writers[w].op)
    ensures Reaches(s0, s') && CanCommit(s', w) && !Atomic(s', w)
  {
    var op, p := s.writers[w].op, s.writers[w].row.prev;
    assert WriterSound(s.log, s.next, s.writers[w]);
    var b := FreshWriter(s.writers);
    MayRead(s, op);
    s' := Commits(s0, s, b, s.writers[w].node, op);
    NoLongerAllowed(s.log, s.next, op, s'.log[s.next]);
    StillFree(s.rows, s'.rows, s.next, op.key, p);
  }

  lemma MayRead(s: State, op: Op)
    requires Loose(s) && TableOk(Core(s.rows), s.log, s.next) && ClientKey(op.key) && Allowed(View(s.log), op)
    ensures Decide(s.rows, op).Append? && Decide(s.rows, op).row.prev == Latest(s.rows, op.key)
    ensures !Taken(s.rows, op.key, Latest(s.rows, op.key)) && s.next !in s.rows
  {
    DecideCore(s.rows, op);
    CoreAnswers(Core(s.rows), s.log, s.next, op);
    LatestIsFree(s, op.key);
  }

  lemma StillFree(t: Table, t': Table, i: nat, name: string, p: nat)
    requires i in t' && t' == t[i := t'[i]] && t'[i].prev != p && !Taken(t, name, p)
    ensures !Taken(t', name, p)
  {
  }

  /** A write the compaction leaves unguarded although it would replace the latest row: it holds an id
      below a newer row of its key, which the compaction deletes. */
  lemma HeldBelow(core: Table, log: Table, next: nat, r: nat, w: Writer) returns (j: nat)
    requires TableOk(core, log, next) && WriterOk(core, log, next, w) && !w.stage.Committed?
    requires !SafeFor(core, w, Victims(core, r)) && Tip(CompactTo(core, r), w.row.name, w.row.prev)
    ensures w.stage.Reserved? && j in log && log[j].name == w.row.name && w.stage.id < j <= r
  {
    var n, p := w.row.name, w.row.prev;
    j := Latest(core, n);
    var gone := j in Victims(core, r);
    LatestIsTip(core, n);
    TipAfter(core, log, next, r, n);
    TipUnique(CompactTo(core, r), n, p, if gone then 0 else j);
    if Taken(core, n, p) {
      RefusedIsStale(core, log, next, n, p);
    } else {
      TipUnique(core, n, p, j);
    }
    VictimFacts(core, log, next, r, j);
  }

  lemma FillGoes(s: State, r: nat, id: nat)
    requires Loose(s) && id !in s.log && id <= r
    ensures id !in CompactTo(s.rows, r)
  {
    CompactedRows(s.rows, r);
    if id in s.rows {
      assert id in Core(s.rows) <==> !IsFill(s.rows[id].name);
      assert s.rows[id] == FillRow(id);
    }
  }

  lemma Later(core: Table, log: Table, next: nat, next': nat)
    requires TableOk(core, log, next) && next <= next'
    ensures TableOk(core, log, next')
  {
  }

  lemma ReachesLoose(s: State, s': State)
    requires Loose(s) && Reaches(s, s')
    ensures Loose(s')
  {
    var steps :| Leads(s, steps, s');
    LooseRun(s, steps);
  }

  /** After a compaction that is not safe for some pending write, that write can commit and not be atomic. */
  lemma UnsafeBreaks(s: State, from: nat, r: nat, w: nat)
    requires Inv(s) && Housed(s) && CanCompact(s, from, r) && w in s.writers && !s.writers[w].stage.Committed?
    requires !SafeFor(Core(s.rows), s.writers[w], Victims(Core(s.rows), r))
    ensures !StaysAtomic(DoCompact(s, r))
  {
    var s1, wr := DoCompact(s, r), s.writers[w];
    Here(s1);
    assert WriterOk(Core(s.rows), s.log, s.next, wr);
    CompactLoose(s, from, r);
    UnsafeIsAccepted(s, w, r);
    if Tip(Core(s1.rows), wr.row.name, wr.row.prev) {
      var j := HeldBelow(Core(s.rows), s.log, s.next, r, wr);
      FillGoes(s, r, wr.stage.id);
      CommitBelow(s1, w, j);
    } else {
      StoredCompactRev(s);
      CompactTable(Core(s.rows), s.log, s.next, r);
      StaleBreaks(s1, w);
    }
  }

  lemma StaleBreaks(s: State, w: nat)
    requires Loose(s) && Housed(s) && TableOk(Core(s.rows), s.log, s.next) && w in s.writers
    requires !s.writers[w].stage.Committed?
    requires Fits(s.writers[w].op, s.writers[w].row) && !Taken(s.rows, s.writers[w].row.name, s.writers[w].row.prev)
    requires !Tip(Core(s.rows), s.writers[w].row.name, s.writers[w].row.prev)
    ensures !StaysAtomic(s)
  {
    Here(s);
    var s2 := ReachesInsert(s, s, w);
    ReachesLoose(s, s2);
    Later(Core(s.rows), s.log, s.next, s2.next);
    if Atomic(s2, w) {
      assert WriterSound(s.log, s.next, s.writers[w]);
      CoreLatest(s.rows, s.writers[w].row.name);
      LatestIsTip(Core(s.rows), s.writers[w].row.name);
      var s3 := Rival(s, s2, w);
    }
  }

  /** A compaction is safe for the pending writes if and only if every commit of every write-safe
      continuation is an atomic compare-and-swap. */
  lemma SafeIff(s: State, compact: Step)
    requires Inv(s) && Housed(s) && compact.Compact? && Enabled(s, compact)
    ensures SafeForWrites(s, Target(s, compact)) <==> StaysAtomic(Apply(s, compact))
  {
    var r := Target(s, compact);
    if SafeForWrites(s, r) {
      StepInv(s, compact);
      InvStaysAtomic(Apply(s, compact));
    } else {
      var w :| w in s.writers && !s.writers[w].stage.Committed? &&
          !SafeFor(Core(s.rows), s.writers[w], Victims(Core(s.rows), r));
      UnsafeBreaks(s, compact.from, r, w);
    }
  }
}

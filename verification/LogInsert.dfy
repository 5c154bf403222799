/** A client row committed by a pending write keeps the invariant of write-safe runs. */
module LogInsert {
  import opened Kine
  import opened LogAnyRun
  import opened LogInvariant
  import opened LogMachine

  /** The new row leaves the chain facts of the rows already there alone. */
  lemma InsertChained(core: Table, log: Table, i: nat, row: Row, k: nat)
    requires k in log && i !in log && Chained(core, log, k)
    requires row.name == log[k].name ==> k < i
    ensures Chained(core[i := row], log[i := row], k)
  {
  }

  ghost predicate MayCommit(core: Table, log: Table, next: nat, w: Writer) {
    && TableOk(core, log, next) && WriterOk(core, log, next, w)
    && w.stage.Reserved? && !Taken(core, w.row.name, w.row.prev)
  }

  /** The row stored: the value of the row it replaces, if that is still there. */
  ghost function Stored(core: Table, w: Writer): Row {
    w.row.(oldValue := OldValue(core, w.row.prev))
  }

  /** A commit happens at an id never used before, links to the latest row of the key, and all
      older rows of the key lie below it. */
  lemma CommitFacts(core: Table, log: Table, next: nat, w: Writer)
    requires MayCommit(core, log, next, w)
    ensures w.stage.id !in log
    ensures Tip(core, w.row.name, w.row.prev)
    ensures AllBelow(log, w.row.name, w.stage.id)
  {
  }

  lemma CommitChained(core: Table, log: Table, next: nat, w: Writer)
    requires MayCommit(core, log, next, w)
    ensures var id, row := w.stage.id, Stored(core, w); Chained(core[id := row], log[id := row], id)
  {
    CommitFacts(core, log, next, w);
    TipInLog(core, log, next, w.row.name, w.row.prev);
  }

  lemma CommitChains(core: Table, log: Table, next: nat, w: Writer)
    requires MayCommit(core, log, next, w)
    ensures var id, row := w.stage.id, Stored(core, w); Chains(core[id := row], log[id := row])
  {
    var id, row := w.stage.id, Stored(core, w);
    var core', log' := core[id := row], log[id := row];
    CommitFacts(core, log, next, w);
    CommitChained(core, log, next, w);
    forall k | k in log' && k != RESERVED_ID ensures Chained(core', log', k) {
      if k != id {
        assert Chained(core, log, k);
        InsertChained(core, log, id, row, k);
      }
    }
  }

  lemma CommitSuffixes(core: Table, log: Table, next: nat, w: Writer)
    requires MayCommit(core, log, next, w)
    ensures var id, row := w.stage.id, Stored(core, w); Suffixes(core[id := row], log[id := row])
  {
    CommitFacts(core, log, next, w);
  }

  lemma CommitTable(core: Table, log: Table, next: nat, w: Writer)
    requires MayCommit(core, log, next, w)
    ensures var id, row := w.stage.id, Stored(core, w); TableOk(core[id := row], log[id := row], next)
  {
    CommitFacts(core, log, next, w);
    InsertSound(core, log, next, w.stage.id, Stored(core, w));
    CommitChains(core, log, next, w);
    CommitSuffixes(core, log, next, w);
  }

  /** Other pending writes on the same key are from now on refused by the index. */
  lemma CommitOther(core: Table, log: Table, next: nat, w: Writer, v: Writer)
    requires MayCommit(core, log, next, w) && WriterOk(core, log, next, v)
    requires v.stage.Reserved? ==> v.stage.id != w.stage.id
    ensures var id, row := w.stage.id, Stored(core, w); WriterOk(core[id := row], log[id := row], next, v)
  {
    var id, row := w.stage.id, Stored(core, w);
    var core', log' := core[id := row], log[id := row];
    CommitFacts(core, log, next, w);
    if !v.stage.Committed? {
      if v.row.name == w.row.name && v.row.prev == w.row.prev {
        assert core'[id].name == v.row.name && core'[id].prev == v.row.prev;
        assert Taken(core', v.row.name, v.row.prev);
      } else if Taken(core, v.row.name, v.row.prev) {
        var k :| k in core && core[k].name == v.row.name && core[k].prev == v.row.prev;
        assert k in core' && core'[k] == core[k];
      }
    }
  }
}

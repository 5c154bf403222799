/** A compaction that is safe for pending writes keeps the invariant of write-safe runs; and the
    condition under which a pending write stays guarded, exactly. */
module LogCompact {
  import opened Compaction
  import opened Kine
  import opened LogAnyRun
  import opened LogInvariant
  import opened LogMachine

  /** Deletions take a key's history from the old end. */
  lemma VictimsDownward(core: Table, log: Table, next: nat, r: nat, i: nat, j: nat)
    requires TableOk(core, log, next) && i in core && i in log && j in Victims(core, r) && j in log
    requires log[i].name == log[j].name && i < j
    ensures i in Victims(core, r)
  {
    VictimFacts(core, log, next, r, j);
    var k := Successor(core, log, next, i, j);
    assert k in core && core[k].name != COMPACT_REV_KEY && core[k].prev != 0 && k <= r && core[k].prev in core;
  }

  ghost predicate Downward(rows: Table, victims: set<nat>) {
    forall i, j | i in rows && j in rows && j in victims && rows[i].name == rows[j].name && i < j :: i in victims
  }

  lemma DownwardVictims(core: Table, log: Table, next: nat, r: nat)
    requires TableOk(core, log, next)
    ensures Downward(core, Victims(core, r))
  {
    forall i, j | i in core && j in core && j in Victims(core, r) && core[i].name == core[j].name && i < j
      ensures i in Victims(core, r)
    {
      VictimsDownward(core, log, next, r, i, j);
    }
  }

  lemma CompactChains(core: Table, log: Table, next: nat, r: nat)
    requires TableOk(core, log, next)
    ensures Chains(CompactTo(core, r), log) && Suffixes(CompactTo(core, r), log)
  {
    var core' := CompactTo(core, r);
    CompactedRows(core, r);
    forall k | k in log && k != RESERVED_ID ensures Chained(core', log, k) {
      assert Chained(core, log, k);
    }
    forall i, j | i in core' && i in log && j in log && log[i].name == log[j].name && i < j ensures j in core' {
      assert j in core;
      if j in Victims(core, r) { VictimsDownward(core, log, next, r, i, j); }
    }
  }

  /** Any compaction keeps the table facts, whatever it deletes. */
  lemma CompactTable(core: Table, log: Table, next: nat, r: nat)
    requires TableOk(core, log, next) && core[RESERVED_ID].prev <= r
    ensures TableOk(CompactTo(core, r), log, next)
  {
    CompactSound(core, log, next, r);
    CompactChains(core, log, next, r);
  }

  // ----- pending writes -----

  lemma TakenAfter(rows: Table, r: nat, name: string, p: nat)
    requires name != COMPACT_REV_KEY
    ensures Taken(CompactTo(rows, r), name, p) <==>
              exists k :: k in rows && k !in Victims(rows, r) && rows[k].name == name && rows[k].prev == p
  {
    CompactedRows(rows, r);
    var rows' := CompactTo(rows, r);
    if Taken(rows', name, p) {
      var k :| k in rows' && rows'[k].name == name && rows'[k].prev == p;
      assert k in rows && k !in Victims(rows, r) && rows[k].name == name && rows[k].prev == p;
    }
    if k :| k in rows && k !in Victims(rows, r) && rows[k].name == name && rows[k].prev == p {
      assert k in rows' && rows'[k].name == name && rows'[k].prev == p;
    }
  }

  /** The tip a pending write is refused for is newer than its previous row. */
  lemma RefusedIsStale(core: Table, log: Table, next: nat, name: string, p: nat)
    requires TableOk(core, log, next) && ClientKey(name) && Taken(core, name, p)
    ensures p < Latest(core, name) && !Tip(core, name, p)
    ensures Latest(core, name) in core && core[Latest(core, name)].name == name
  {
    var k :| k in core && core[k].name == name && core[k].prev == p;
    assert Chained(core, log, k);
  }

  lemma TipWithout(rows: Table, rows': Table, victims: set<nat>, name: string, q: nat)
    requires rows'.Keys == rows.Keys - victims && forall j | j in rows' :: rows'[j].name == rows[j].name
    requires Tip(rows, name, q) && 0 !in victims && Downward(rows, victims)
    ensures Tip(rows', name, if q in victims then 0 else q)
  {
  }

  /** After the compaction: what is visible of a key whose tip was q. */
  lemma TipAfter(core: Table, log: Table, next: nat, r: nat, name: string)
    requires TableOk(core, log, next) && ClientKey(name)
    ensures var q := Latest(core, name);
            Tip(CompactTo(core, r), name, if q in Victims(core, r) then 0 else q)
  {
    var q, victims := Latest(core, name), Victims(core, r);
    assert 0 !in victims && (q in victims ==> q in core && core[q].name == name);
    DownwardVictims(core, log, next, r);
    CompactedRows(core, r);
    LatestIsTip(core, name);
    TipWithout(core, CompactTo(core, r), victims, name, q);
  }

  lemma TipUnique(rows: Table, name: string, p: nat, q: nat)
    requires Tip(rows, name, p) && Tip(rows, name, q)
    ensures p == q
  {
  }

  /** Exactly when a compaction leaves a pending write guarded. */
  lemma SafeForExact(core: Table, log: Table, next: nat, r: nat, w: Writer)
    requires TableOk(core, log, next) && WriterOk(core, log, next, w) && !w.stage.Committed?
    ensures SafeFor(core, w, Victims(core, r)) <==> Guarded(CompactTo(core, r), log, w)
  {
    var name, p, victims, core' := w.row.name, w.row.prev, Victims(core, r), CompactTo(core, r);
    var q := Latest(core, name);
    var q' := if q in victims then 0 else q;
    TakenAfter(core, r, name, p);
    TipAfter(core, log, next, r, name);
    LatestIsTip(core, name);
    if Taken(core, name, p) {
      RefusedIsStale(core, log, next, name, p);
      TipInLog(core, log, next, name, q);
      if Tip(core', name, p) { TipUnique(core', name, p, q'); }
      assert Guarded(core', log, w) <==>
             Taken(core', name, p) || (p == 0 && q in victims && (w.stage.Reserved? ==> q < w.stage.id)) by {
        assert q in log && log[q].name == name;
      }
    } else {
      assert Tip(core, name, p);
      TipUnique(core, name, p, q);
      assert !Taken(core', name, p);
      if Tip(core', name, p) { TipUnique(core', name, p, q'); }
      if p in victims { VictimFacts(core, log, next, r, p); }
    }
  }

  lemma CompactWriter(core: Table, log: Table, next: nat, r: nat, w: Writer)
    requires TableOk(core, log, next) && WriterOk(core, log, next, w)
    requires !w.stage.Committed? ==> SafeFor(core, w, Victims(core, r))
    ensures WriterOk(CompactTo(core, r), log, next, w)
  {
    if !w.stage.Committed? {
      SafeForExact(core, log, next, r, w);
    }
  }
}

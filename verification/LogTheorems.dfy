/** What every write-safe run of the log guarantees: compaction is invisible to legal lists, and
    the operations are atomic compare-and-swaps on one store. */
module LogTheorems {
  import opened Compaction
  import opened Kine
  import opened LogAnyRun
  import opened LogCompact
  import opened LogInsert
  import opened LogInvariant
  import opened LogMachine
  import opened LogSteps
  import opened Options

  // ----- reads -----

  lemma LiveInLog(core: Table, log: Table, next: nat, i: nat, r: nat)
    requires TableOk(core, log, next) && IsLatestAt(core, i, r) && !core[i].deleted
    ensures IsLatestAt(log, i, r)
  {
    assert forall j | j in log && log[j].name == log[i].name && i < j :: j in core;
  }

  lemma LiveInCore(core: Table, log: Table, next: nat, i: nat, r: nat)
    requires Sound(core, log, next) && core[RESERVED_ID].prev <= r
    requires IsLatestAt(log, i, r) && !log[i].deleted
    ensures IsLatestAt(core, i, r)
  {
    assert i in core || Justified(log, i, core[RESERVED_ID].prev);
  }

  lemma LatestInCore(rows: Table, next: nat, i: nat, r: nat)
    requires Fills(rows, next) && i in rows && !rows[i].deleted
    ensures i in Core(rows) && (IsLatestAt(rows, i, r) <==> IsLatestAt(Core(rows), i, r))
  {
    assert forall j | j in rows && rows[j].name == rows[i].name :: j in Core(rows);
  }

  /** A list at any revision from the compact revision on returns what it would return had
      nothing ever been compacted. */
  lemma ListInvisible(s: State, key: string, end: string, r: nat)
    requires Inv(s) && CompactRev(s.rows) <= r
    ensures ListAt(s.rows, key, end, r, false) == ListAt(s.log, key, end, r, false)
  {
    var a, b := ListAt(s.rows, key, end, r, false), ListAt(s.log, key, end, r, false);
    var core := Core(s.rows);
    StoredCompactRev(s);
    forall i | i in a ensures i in b && a[i] == b[i] {
      LatestInCore(s.rows, s.next, i, r);
      LiveInLog(core, s.log, s.next, i, r);
    }
    forall i | i in b ensures i in a {
      LiveInCore(core, s.log, s.next, i, r);
      LatestInCore(s.rows, s.next, i, r);
    }
    assert a.Keys == b.Keys;
  }

  // ----- the store the log stands for -----

  ghost function Names(t: Table): set<string> {
    set i | i in t :: t[i].name
  }

  /** The current live version of every key. */
  ghost function View(t: Table): map<string, Event> {
    map n | n in Names(t) && !t[Latest(t, n)].deleted :: Scan(Latest(t, n), t[Latest(t, n)])
  }

  /** The conditions of the three operations on a key-value store. */
  ghost predicate Allowed(view: map<string, Event>, op: Op) {
    match op
    case Create(key, _, _) => key !in view
    case Update(key, _, rev, _) => key in view && view[key].kv.modRev == rev
    case Delete(key, rev) => key in view && (rev == 0 || view[key].kv.modRev == rev)
  }

  /** Their effects, at revision id. An updated key keeps the create revision of its lifetime. */
  ghost function Effect(view: map<string, Event>, op: Op, id: nat): map<string, Event>
    requires Allowed(view, op)
  {
    match op
    case Create(key, value, lease) =>
      view[key := Event(true, false, KeyValue(key, value, id, id, lease), None)]
    case Update(key, value, rev, lease) =>
      var was := view[key].kv;
      view[key := Event(false, false, KeyValue(key, value, was.createRev, id, lease),
                        Some(KeyValue(key, was.value, was.createRev, was.modRev, lease)))]
    case Delete(key, _) => view - {key}
  }

  lemma ViewAt(t: Table, n: string)
    ensures n in View(t) <==> (Latest(t, n) in t && t[Latest(t, n)].name == n && !t[Latest(t, n)].deleted)
    ensures n in View(t) ==> View(t)[n] == Scan(Latest(t, n), t[Latest(t, n)])
  {
    if Latest(t, n) in t && t[Latest(t, n)].name == n { assert n in Names(t); }
  }

  lemma LatestTip(t: Table, n: string, p: nat)
    requires p in t && t[p].name == n && forall j | j in t && t[j].name == n :: j <= p
    ensures Latest(t, n) == p
  {
  }

  /** A name's live version, in the table and in its core. */
  lemma ViewOfCore(s: State, n: string)
    requires Loose(s)
    ensures n in View(s.rows) <==> n in View(Core(s.rows))
    ensures n in View(s.rows) ==> View(s.rows)[n] == View(Core(s.rows))[n]
  {
    ViewAt(s.rows, n);
    ViewAt(Core(s.rows), n);
    if IsFill(n) {
      assert n in View(s.rows) ==> s.rows[Latest(s.rows, n)] == FillRow(Latest(s.rows, n));
    } else {
      CoreLatest(s.rows, n);
    }
  }

  lemma ReservedView(core: Table, log: Table, next: nat)
    requires Shape(core, log, next)
    ensures Latest(core, COMPACT_REV_KEY) == RESERVED_ID == Latest(log, COMPACT_REV_KEY)
  {
    LatestTip(core, COMPACT_REV_KEY, RESERVED_ID);
    LatestTip(log, COMPACT_REV_KEY, RESERVED_ID);
  }

  lemma KeyView(core: Table, log: Table, next: nat, n: string)
    requires TableOk(core, log, next) && ClientKey(n)
    ensures n in View(core) <==> n in View(log)
    ensures n in View(core) ==> View(core)[n] == View(log)[n] && Latest(core, n) == Latest(log, n)
  {
    var p := Latest(core, n);
    LatestIsTip(core, n);
    TipInLog(core, log, next, n, p);
    ViewAt(core, n);
    ViewAt(log, n);
    if p != 0 {
      LatestTip(log, n, p);
    } else {
      var q := Latest(log, n);
      assert q in log && log[q].name == n ==> log[q].deleted;
    }
  }

  lemma NameView(core: Table, log: Table, next: nat, n: string)
    requires TableOk(core, log, next) && !IsFill(n)
    ensures n in View(core) <==> n in View(log)
    ensures n in View(core) ==> View(core)[n] == View(log)[n]
  {
    if n == COMPACT_REV_KEY {
      ReservedView(core, log, next);
      ViewAt(core, n);
      ViewAt(log, n);
    } else {
      KeyView(core, log, next, n);
    }
  }

  lemma NoFillsInView(t: Table, n: string)
    requires IsFill(n) && forall i | i in t :: !IsFill(t[i].name)
    ensures n !in View(t)
  {
    ViewAt(t, n);
  }

  /** The current listing is the current state of the full log. */
  lemma ViewInvisible(s: State)
    requires Inv(s)
    ensures View(s.rows) == View(s.log)
  {
    forall n: string
      ensures n in View(s.rows) <==> n in View(s.log)
      ensures n in View(s.rows) ==> View(s.rows)[n] == View(s.log)[n]
    {
      ViewOfCore(s, n);
      if IsFill(n) {
        NoFillsInView(Core(s.rows), n);
        NoFillsInView(s.log, n);
      } else {
        NameView(Core(s.rows), s.log, s.next, n);
      }
    }
    assert View(s.rows).Keys == View(s.log).Keys;
  }

  // ----- writes -----

  lemma InsertViewAt(t: Table, i: nat, row: Row, n: string)
    requires i !in t && forall j | j in t && t[j].name == row.name :: j < i
    ensures var u := t[i := row];
            if n != row.name then (n in View(u) <==> n in View(t)) && (n in View(u) ==> View(u)[n] == View(t)[n])
            else (n in View(u) <==> !row.deleted) && (n in View(u) ==> View(u)[n] == Scan(i, row))
  {
    var u := t[i := row];
    ViewAt(t, n);
    ViewAt(u, n);
    if n != row.name {
      InsertLatest(t, i, row, n);
    } else {
      LatestTip(u, n, i);
    }
  }

  /** Inserting row i of name n above all rows of that name. */
  lemma InsertView(t: Table, i: nat, row: Row)
    requires i !in t && forall j | j in t && t[j].name == row.name :: j < i
    ensures View(t[i := row]) == if row.deleted then View(t) - {row.name} else View(t)[row.name := Scan(i, row)]
  {
    var before, after := View(t), View(t[i := row]);
    forall n: string
      ensures if n != row.name then (n in after <==> n in before) && (n in after ==> after[n] == before[n])
              else (n in after <==> !row.deleted) && (n in after ==> after[n] == Scan(i, row))
    {
      InsertViewAt(t, i, row, n);
    }
    MapsAgree(before, after, row.name, row.deleted, Scan(i, row));
  }

  lemma MapsAgree<V>(before: map<string, V>, after: map<string, V>, k: string, gone: bool, v: V)
    requires forall n: string :: if n != k then (n in after <==> n in before) && (n in after ==> after[n] == before[n])
                                 else (n in after <==> !gone) && (n in after ==> after[n] == v)
    ensures after == if gone then before - {k} else before[k := v]
  {
    assert after.Keys == (if gone then before - {k} else before[k := v]).Keys;
  }

  lemma InsertLatest(t: Table, i: nat, row: Row, n: string)
    requires i !in t && row.name != n
    ensures Latest(t[i := row], n) == Latest(t, n)
  {
    var u := t[i := row];
    var a, b := Latest(u, n), Latest(t, n);
    if b in t && t[b].name == n {
      assert b in u && u[b].name == n;
      assert a in t && t[a].name == n;
    } else {
      assert forall j | j in u :: u[j].name != n;
    }
  }

  /** The row a pending write would replace is the live version its operation asks for. */
  lemma CommitAllowed(s: State, w: nat)
    requires Inv(s) && CanCommit(s, w)
    ensures Allowed(View(s.log), s.writers[w].op)
    ensures var row := s.writers[w].row;
            !row.created ==> row.name in View(s.log) && View(s.log)[row.name] == Scan(row.prev, s.log[row.prev])
  {
    var wr, core := s.writers[w], Core(s.rows);
    CommitMay(s, w);
    MayAllowed(core, s.log, s.next, wr);
  }

  lemma MayAllowed(core: Table, log: Table, next: nat, w: Writer)
    requires MayCommit(core, log, next, w)
    ensures Allowed(View(log), w.op)
    ensures !w.row.created ==> w.row.name in View(log) && View(log)[w.row.name] == Scan(w.row.prev, log[w.row.prev])
  {
    var n, p := w.row.name, w.row.prev;
    CommitFacts(core, log, next, w);
    TipInLog(core, log, next, n, p);
    ViewAt(log, n);
    if p != 0 {
      LatestTip(log, n, p);
    } else {
      var q := Latest(log, n);
      assert q in log && log[q].name == n ==> log[q].deleted;
    }
  }

  /** Committing is one atomic compare-and-swap on the store: its condition holds at that moment
      and its effect is exactly the operation's, at a revision above everything of the key. */
  lemma CommitIsAtomic(s: State, w: nat)
    requires Inv(s) && CanCommit(s, w)
    ensures var op, id := s.writers[w].op, s.writers[w].stage.id;
            && Allowed(View(s.log), op)
            && View(DoCommit(s, w).log) == Effect(View(s.log), op, id)
            && id !in s.log
  {
    CommitAllowed(s, w);
    CommitMay(s, w);
    MayEffect(Core(s.rows), s.log, s.next, s.writers[w]);
  }

  lemma MayEffect(core: Table, log: Table, next: nat, w: Writer)
    requires MayCommit(core, log, next, w) && Allowed(View(log), w.op)
    ensures View(log[w.stage.id := Stored(core, w)]) == Effect(View(log), w.op, w.stage.id) && w.stage.id !in log
  {
    CommitFacts(core, log, next, w);
    InsertView(log, w.stage.id, Stored(core, w));
    if w.op.Update? { UpdatedEvent(core, log, next, w); }
  }

  /** An updated key keeps its create revision and reports the value it replaced. */
  lemma UpdatedEvent(core: Table, log: Table, next: nat, w: Writer)
    requires MayCommit(core, log, next, w) && w.op.Update?
    ensures Allowed(View(log), w.op)
    ensures Scan(w.stage.id, Stored(core, w)) == Effect(View(log), w.op, w.stage.id)[w.op.key]
  {
    CommitFacts(core, log, next, w);
    MayAllowed(core, log, next, w);
    assert w.row.prev in core && core[w.row.prev].value == log[w.row.prev].value;
  }

  /** No other step changes the store. */
  lemma OtherStepsKeepView(s: State, step: Step)
    requires Loose(s) && Enabled(s, step) && !step.Commit?
    ensures View(Apply(s, step).log) == View(s.log)
  {
    StepGrows(s, step);
  }

  /** The answer to an operation, case by case, in terms of the store and of the visible rows. */
  ghost predicate Answers(d: Decision, rows: Table, view: map<string, Event>, op: Op) {
    && (d.Append? <==> Allowed(view, op))
    && (d.ErrKeyExists? <==> op.Create? && op.key in view)
    && (d.NotFound? <==> op.Update? && op.key !in view)
    && (d.Conflict? <==>
        !op.Create? && op.key in view && view[op.key].kv.modRev != op.rev && (op.Delete? ==> op.rev != 0))
    && (d.Conflict? ==> op.key in view && d.current == view[op.key])
    && (d.AlreadyAbsent? <==> op.Delete? && forall i | i in rows :: rows[i].name != op.key)
    && (d.AlreadyDeleted? <==> op.Delete? && EndsInTombstone(rows, op.key))
  }

  /** Row i is a tombstone, and the row of its name with the highest id. */
  ghost predicate LastTombstone(rows: Table, name: string, i: nat) {
    && i in rows && rows[i].name == name && rows[i].deleted
    && forall j | j in rows && rows[j].name == name :: j <= i
  }

  ghost predicate EndsInTombstone(rows: Table, name: string) {
    exists i :: LastTombstone(rows, name, i)
  }

  /** At the moment of its read an operation goes on to append exactly when its condition holds;
      otherwise its answer says which part of it fails, and reports the version that stands in the way. */
  lemma AnswersAreTrue(s: State, op: Op)
    requires Inv(s) && ClientKey(op.key)
    ensures Answers(Decide(s.rows, op), s.rows, View(s.log), op)
  {
    DecideCore(s.rows, op);
    CoreAnswers(Core(s.rows), s.log, s.next, op);
    CoreRows(s.rows, op.key);
  }

  lemma CoreRows(rows: Table, name: string)
    requires !IsFill(name)
    ensures (forall i | i in rows :: rows[i].name != name) <==> forall i | i in Core(rows) :: Core(rows)[i].name != name
    ensures EndsInTombstone(rows, name) <==> EndsInTombstone(Core(rows), name)
  {
    var core := Core(rows);
    assert forall i | i in rows && rows[i].name == name :: i in core && core[i] == rows[i];
    assert forall i | i in core :: i in rows && core[i] == rows[i];
    if i :| LastTombstone(rows, name, i) { assert LastTombstone(core, name, i); }
    if i :| LastTombstone(core, name, i) { assert LastTombstone(rows, name, i); }
  }

  lemma CoreAnswers(core: Table, log: Table, next: nat, op: Op)
    requires TableOk(core, log, next) && ClientKey(op.key)
    ensures Answers(Decide(core, op), core, View(log), op)
  {
    KeyView(core, log, next, op.key);
    ViewAt(core, op.key);
    TombstoneAt(core, op.key);
    Decided(core, View(log), op);
  }

  lemma TombstoneAt(t: Table, name: string)
    requires 0 !in t
    ensures EndsInTombstone(t, name) <==> Latest(t, name) in t && t[Latest(t, name)].deleted
  {
    var p := Latest(t, name);
    if p in t && t[p].deleted { assert LastTombstone(t, name, p); }
    if i :| LastTombstone(t, name, i) { LatestTip(t, name, i); }
  }

  lemma Decided(t: Table, view: map<string, Event>, op: Op)
    requires 0 !in t && (EndsInTombstone(t, op.key) <==> Latest(t, op.key) in t && t[Latest(t, op.key)].deleted)
    requires op.key in view <==> Latest(t, op.key) in t && !t[Latest(t, op.key)].deleted
    requires op.key in view ==> view[op.key] == Scan(Latest(t, op.key), t[Latest(t, op.key)])
    ensures Answers(Decide(t, op), t, view, op)
  {
  }

  /** The index refuses a pending write only when the key has moved on since its read. */
  lemma RefusalsAreTrue(s: State, w: nat)
    requires Inv(s) && w in s.writers && !s.writers[w].stage.Committed?
    requires Taken(s.rows, s.writers[w].row.name, s.writers[w].row.prev)
    ensures s.writers[w].row.prev < Latest(s.rows, s.writers[w].row.name)
  {
    var n, p := s.writers[w].row.name, s.writers[w].row.prev;
    assert WriterOk(Core(s.rows), s.log, s.next, s.writers[w]);
    CoreTaken(s.rows, n, p);
    CoreLatest(s.rows, n);
    RefusedIsStale(Core(s.rows), s.log, s.next, n, p);
  }

  /** The rows of a key form one chain: each links to the one before it, or starts a new chain
      after a tombstone that has been compacted away. */
  lemma OneChain(s: State, i: nat, j: nat)
    requires Inv(s) && i in s.log && j in s.log && i < j && s.log[i].name == s.log[j].name
    requires forall k | k in s.log && s.log[k].name == s.log[j].name && k < j :: k <= i
    ensures s.log[j].prev == i || (s.log[j].prev == 0 && s.log[j].created && i !in Core(s.rows))
    ensures s.log[j].created ==> s.log[j].prev == 0 || s.log[i].deleted
    ensures !s.log[j].created ==> !s.log[i].deleted && s.log[j].oldValue == s.log[i].value
    ensures !s.log[j].created && !s.log[j].deleted ==> s.log[j].createRev == CreateRev(i, s.log[i])
  {
    assert j != RESERVED_ID;
    assert Chained(Core(s.rows), s.log, j);
  }

  // ----- what a compaction leaves -----

  lemma SupersededGoes(core: Table, log: Table, next: nat, r: nat, i: nat, j: nat)
    requires TableOk(core, log, next) && i in core && i in log && i != RESERVED_ID
    requires j in log && log[j].name == log[i].name && i < j <= r
    ensures i in Victims(core, r)
  {
    var k := Successor(core, log, next, i, j);
    assert k in core && core[k].name != COMPACT_REV_KEY && core[k].prev != 0 && k <= r;
  }

  lemma SurvivorsBelow(core: Table, log: Table, next: nat, r: nat, i: nat)
    requires TableOk(core, log, next) && i in core && i != RESERVED_ID && i <= r
    ensures i in CompactTo(core, r) <==> IsLatestAt(log, i, r) && !log[i].deleted
  {
    CompactedRows(core, r);
    if i !in Victims(core, r) {
      forall j | j in log && log[j].name == log[i].name && j <= r ensures j <= i {
        if i < j { SupersededGoes(core, log, next, r, i, j); }
      }
    } else if k :| k in core && core[k].name != COMPACT_REV_KEY && core[k].prev == i && k <= r {
      assert LinkOk(log, k);
    }
  }

  /** The table after a compaction to r, determined by the log alone: up to r the version of each key that is
      live at r, and every row after it. */
  lemma CompactLeaves(s: State, compact: Step, i: nat)
    requires Inv(s) && compact.Compact? && Enabled(s, compact) && i != RESERVED_ID
    ensures var r, core' := Target(s, compact), Core(Apply(s, compact).rows);
            && (i in core' <==> i in s.log && (i <= r ==> IsLatestAt(s.log, i, r) && !s.log[i].deleted))
            && (i in core' ==> core'[i] == s.log[i])
  {
    var r, core := Target(s, compact), Core(s.rows);
    CompactLoose(s, compact.from, r);
    StoredCompactRev(s);
    CompactedRows(core, r);
    if i in core && i <= r { SurvivorsBelow(core, s.log, s.next, r, i); }
    if i in core && r < i { NotBelow(core, s.log, s.next, r, i); }
    if i in s.log && i !in core {
      assert Justified(s.log, i, core[RESERVED_ID].prev);
    }
  }

  lemma NotBelow(core: Table, log: Table, next: nat, r: nat, i: nat)
    requires Sound(core, log, next) && r < i
    ensures i !in Victims(core, r)
  {
    if i in Victims(core, r) { VictimFacts(core, log, next, r, i); }
  }
}

/** Two invariants of the log protocol: what holds in every run, and what holds as long as
    compactions are safe for pending writes. Both relate the table, gap fills aside, to the log
    of everything ever committed. */
module LogInvariant {
  import opened Kine
  import opened LogMachine

  // ----- in every run: the table against the full log -----

  /** A row links to an older row of its own name, or to nothing. */
  ghost predicate LinkOk(log: Table, i: nat)
    requires i in log
  {
    log[i].prev != 0 ==> log[i].prev in log && log[log[i].prev].name == log[i].name && log[i].prev < i
  }

  ghost predicate Linked(log: Table) {
    forall i {:trigger LinkOk(log, i)} | i in log :: LinkOk(log, i)
  }

  /** Row i was removed for a reason: a newer row of its name, or its own tombstone, lies at or
      below the compact revision. */
  ghost predicate Justified(log: Table, i: nat, c: nat)
    requires i in log
  {
    || (log[i].deleted && i <= c)
    || (exists j :: j in log && log[j].name == log[i].name && i < j <= c)
  }

  ghost predicate Shape(core: Table, log: Table, next: nat) {
    && (forall i | i in log :: 0 < i < next && !IsFill(log[i].name))
    && (forall i | i in core ::
          i in log && core[i] == (if i == RESERVED_ID then log[i].(prev := core[i].prev) else log[i]))
    && RESERVED_ID in core && RESERVED_ID in log && log[RESERVED_ID] == FIRST_ROW
    && (forall i | i in log && i != RESERVED_ID :: log[i].name != COMPACT_REV_KEY)
  }

  ghost predicate Removals(core: Table, log: Table, c: nat) {
    forall i {:trigger Justified(log, i, c)} | i in log && i !in core :: Justified(log, i, c)
  }

  ghost predicate Sound(core: Table, log: Table, next: nat) {
    && Shape(core, log, next)
    && Linked(log)
    && RESERVED_ID in core && Removals(core, log, core[RESERVED_ID].prev)
  }

  ghost predicate Fills(rows: Table, next: nat) {
    forall i | i in rows :: 0 < i < next && (IsFill(rows[i].name) ==> rows[i] == FillRow(i))
  }

  // ----- in every run: writers and nodes -----

  /** A reserved id has not been used, and a pending row links to a row of its own name. */
  ghost predicate WriterSound(log: Table, next: nat, w: Writer) {
    && ClientKey(w.row.name) && w.row.prev < next
    && (w.row.prev != 0 ==> w.row.prev in log && log[w.row.prev].name == w.row.name)
    && (w.stage.Loaded? ==> w.stage.cur < next)
    && (w.stage.Reserved? ==> w.stage.cur < w.stage.id < next && w.row.prev < w.stage.id && w.stage.id !in log)
    && (w.stage.Committed? ==> w.stage.cur < w.stage.id < next)
  }

  ghost predicate WritersSound(log: Table, next: nat, writers: map<nat, Writer>) {
    forall w | w in writers :: WriterSound(log, next, writers[w])
  }

  /** No id is reserved twice. */
  ghost predicate Distinct(writers: map<nat, Writer>) {
    forall v, w | v in writers && w in writers && v != w && writers[v].stage.Reserved? && writers[w].stage.Reserved? ::
      writers[v].stage.id != writers[w].stage.id
  }

  ghost predicate NodeSound(next: nat, n: Node) {
    && n.currentRev < next && Passed(n) < next
    && (forall r | r in n.lazy :: r < next)
    && (n.pending.Some? ==> n.polling && n.pollRev < n.pending.value.rev)
    && (n.polling ==> n.pollStart <= n.pollRev && n.polledRev <= n.pollRev)
    && (!n.polling ==> n.polledRev == 0 && n.sent == [])
  }

  ghost predicate NodesSound(next: nat, nodes: map<nat, Node>) {
    forall k | k in nodes :: NodeSound(next, nodes[k])
  }

  /** The invariant of every run. */
  ghost predicate Loose(s: State) {
    && Fills(s.rows, s.next)
    && Sound(Core(s.rows), s.log, s.next)
    && WritersSound(s.log, s.next, s.writers) && Distinct(s.writers)
    && NodesSound(s.next, s.nodes)
  }

  // ----- in write-safe runs -----

  /** Row facts fixed when the row is decided: what it links to in the log. */
  ghost predicate Links(log: Table, row: Row) {
    && (row.prev != 0 ==> row.prev in log && log[row.prev].name == row.name)
    && (row.created ==> !row.deleted && (row.prev != 0 ==> log[row.prev].deleted))
    && (!row.created ==> row.prev != 0 && !log[row.prev].deleted)
    && (!row.created && !row.deleted ==> row.createRev == CreateRev(row.prev, log[row.prev]))
  }

  /** Client row i is chained to its predecessor; it may link to nothing only when every older
      row of its name has been compacted away. */
  ghost predicate Chained(core: Table, log: Table, i: nat)
    requires i in log
  {
    var row := log[i];
    && Links(log, row)
    && row.prev < i
    && row.oldValue == (if row.prev == 0 then "" else if row.prev in log then log[row.prev].value else "")
    && (forall j | j in log && log[j].name == row.name && j < i :: if row.prev == 0 then j !in core else j <= row.prev)
  }

  ghost predicate Chains(core: Table, log: Table) {
    forall i {:trigger Chained(core, log, i)} | i in log && i != RESERVED_ID :: Chained(core, log, i)
  }

  /** What is left of a key's history is a suffix of it. */
  ghost predicate Suffixes(core: Table, log: Table) {
    forall i, j | i in core && i in log && j in log && log[i].name == log[j].name && i < j :: j in core
  }

  ghost predicate TableOk(core: Table, log: Table, next: nat) {
    Sound(core, log, next) && Chains(core, log) && Suffixes(core, log)
  }

  /** The row a writer wants to append is the one its operation calls for. */
  ghost predicate Fits(op: Op, row: Row) {
    && row.name == op.key && row.oldValue == ""
    && match op
       case Create(_, value, lease) =>
         row.created && !row.deleted && row.value == value && row.lease == lease && row.createRev == 0
       case Update(_, value, rev, lease) =>
         !row.created && !row.deleted && row.value == value && row.lease == lease && row.prev == rev
       case Delete(_, rev) =>
         && !row.created && row.deleted && row.value == "" && row.lease == 0 && row.createRev == 0
         && (rev != 0 ==> row.prev == rev)
  }

  ghost predicate WriterOk(core: Table, log: Table, next: nat, w: Writer) {
    && WriterSound(log, next, w)
    && Fits(w.op, w.row)
    && (!w.stage.Committed? ==> Links(log, w.row) && Guarded(core, log, w))
  }

  ghost predicate WritersOk(core: Table, log: Table, next: nat, writers: map<nat, Writer>) {
    forall w | w in writers :: WriterOk(core, log, next, writers[w])
  }

  /** The invariant of write-safe runs. */
  ghost predicate Inv(s: State) {
    && Loose(s)
    && TableOk(Core(s.rows), s.log, s.next)
    && WritersOk(Core(s.rows), s.log, s.next, s.writers)
  }

  lemma InitInv()
    ensures Inv(INIT)
  {
    assert !IsFill(COMPACT_REV_KEY) by { assert COMPACT_REV_KEY[..4] == "comp"; }
    assert Core(INIT.rows) == INIT.rows;
    assert LinkOk(INIT.log, RESERVED_ID);
  }

  // ----- the table and its core -----

  lemma FillIsNotClient(i: nat)
    ensures !ClientKey(FillRow(i).name) && IsFill(FillRow(i).name) && FillRow(i).name != COMPACT_REV_KEY
  {
    assert FillRow(i).name[..4] == FILL_PREFIX;
    assert FillRow(i).name[0] == 'g';
  }

  lemma CoreInsert(rows: Table, i: nat, row: Row)
    requires i !in rows
    ensures Core(rows[i := row]) == if IsFill(row.name) then Core(rows) else Core(rows)[i := row]
  {
  }

  lemma CoreLatest(rows: Table, name: string)
    requires !IsFill(name)
    ensures Latest(Core(rows), name) == Latest(rows, name)
  {
    var p, q := Latest(rows, name), Latest(Core(rows), name);
    assert p in rows && rows[p].name == name ==> p in Core(rows) && Core(rows)[p].name == name;
    assert q in Core(rows) && Core(rows)[q].name == name ==> q in rows && rows[q].name == name;
  }

  lemma CoreTaken(rows: Table, name: string, p: nat)
    requires !IsFill(name)
    ensures Taken(Core(rows), name, p) == Taken(rows, name, p)
  {
    if k :| k in rows && rows[k].name == name && rows[k].prev == p {
      assert k in Core(rows) && Core(rows)[k].name == name && Core(rows)[k].prev == p;
    }
    if k :| k in Core(rows) && Core(rows)[k].name == name && Core(rows)[k].prev == p {
      assert k in rows && rows[k].name == name && rows[k].prev == p;
    }
  }

  lemma CoreCompactRev(rows: Table)
    ensures CompactRev(Core(rows)) == CompactRev(rows)
  {
    assert !IsFill(COMPACT_REV_KEY) by { assert COMPACT_REV_KEY[..4] == "comp"; }
    var c := Core(rows);
    assert forall i | i in rows && rows[i].name == COMPACT_REV_KEY :: i in c && c[i] == rows[i];
    assert forall i | i in c && c[i].name == COMPACT_REV_KEY :: i in rows && c[i] == rows[i];
  }

  // ----- facts about a good table -----

  lemma CompactRevIs(core: Table, log: Table, next: nat)
    requires Shape(core, log, next)
    ensures CompactRev(core) == core[RESERVED_ID].prev
  {
    assert core[RESERVED_ID].name == COMPACT_REV_KEY;
  }

  lemma StoredCompactRev(s: State)
    requires Loose(s)
    ensures CompactRev(s.rows) == Core(s.rows)[RESERVED_ID].prev
  {
    CoreCompactRev(s.rows);
    CompactRevIs(Core(s.rows), s.log, s.next);
  }

  lemma LatestIsTip(rows: Table, name: string)
    requires 0 !in rows
    ensures Tip(rows, name, Latest(rows, name))
  {
  }

  /** The visible tip of a client key is the tip of its full history; with none visible, the
      history is empty or ends in a tombstone at or below the compact revision. */
  lemma TipInLog(core: Table, log: Table, next: nat, name: string, p: nat)
    requires TableOk(core, log, next) && ClientKey(name) && Tip(core, name, p)
    ensures p != 0 ==> forall j | j in log && log[j].name == name :: j <= p
    ensures p == 0 ==> forall j | j in log && log[j].name == name ::
                         j !in core && (log[j].deleted || exists i :: i in log && log[i].name == name && j < i)
  {
    if p != 0 {
      assert forall j | j in log && log[j].name == name && p < j :: j in core;
    } else {
      forall j | j in log && log[j].name == name
        ensures j !in core && (log[j].deleted || exists i :: i in log && log[i].name == name && j < i)
      {
        assert j !in core;
        assert Justified(log, j, core[RESERVED_ID].prev);
      }
    }
  }

  /** Between two rows of a client key, the older one still visible, some row replaces the older. */
  lemma {:induction false} Successor(core: Table, log: Table, next: nat, i: nat, j: nat) returns (k: nat)
    requires TableOk(core, log, next) && i in core && j in log && i in log
    requires log[j].name == log[i].name && i < j
    ensures i < k <= j && k in core && log[k].name == log[i].name && core[k].prev == i
    decreases j
  {
    assert j in core && Chained(core, log, j);
    assert log[j].prev != 0 && i <= log[j].prev;
    if log[j].prev == i {
      k := j;
    } else {
      k := Successor(core, log, next, i, log[j].prev);
    }
  }
}

/** The event of every committed operation, in terms of the operation and the store before it, and what
    pollers send for it. */
module LogEvents {
  import opened Kine
  import opened LogAnyRun
  import opened LogInsert
  import opened LogInvariant
  import opened LogMachine
  import opened LogPoll
  import opened LogSteps
  import opened LogTheorems
  import opened Options

  /** What watchers are to be told about an operation at revision id on a store. A tombstone carries neither
      value nor lease nor create revision; it names the version it ends and that version's value. */
  ghost function Announced(view: map<string, Event>, op: Op, id: nat): Event
    requires Allowed(view, op)
  {
    match op
    case Create(key, value, lease) => Event(true, false, KeyValue(key, value, id, id, lease), None)
    case Update(key, value, _, lease) =>
      var was := view[key].kv;
      Event(false, false, KeyValue(key, value, was.createRev, id, lease),
            Some(KeyValue(key, was.value, was.createRev, was.modRev, lease)))
    case Delete(key, _) =>
      var was := view[key].kv;
      Event(false, true, KeyValue(key, "", 0, id, 0), Some(KeyValue(key, was.value, 0, was.modRev, 0)))
  }

  lemma RowAnnounced(core: Table, log: Table, next: nat, w: Writer)
    requires MayCommit(core, log, next, w)
    ensures Allowed(View(log), w.op)
    ensures Scan(w.stage.id, Stored(core, w)) == Announced(View(log), w.op, w.stage.id)
  {
    CommitFacts(core, log, next, w);
    MayAllowed(core, log, next, w);
    if !w.op.Create? { assert w.row.prev in core && core[w.row.prev].value == log[w.row.prev].value; }
  }

  /** The row a commit adds converts to the event of its operation. */
  lemma CommittedEvent(s: State, w: nat)
    requires Inv(s) && CanCommit(s, w)
    ensures var op, id := s.writers[w].op, s.writers[w].stage.id;
            && Allowed(View(s.log), op) && id in DoCommit(s, w).log
            && Scan(id, DoCommit(s, w).log[id]) == Announced(View(s.log), op, id)
  {
    CommitMay(s, w);
    RowAnnounced(Core(s.rows), s.log, s.next, s.writers[w]);
  }

  /** Whatever happens after the commit: once an exact poller has passed its revision, it has sent the event
      of the operation, and no other at that revision. */
  lemma CommitIsSent(s: State, w: nat, steps: seq<Step>, k: nat)
    requires Inv(s) && CanCommit(s, w) && AnyRun(DoCommit(s, w), steps)
    requires var s', id := Final(DoCommit(s, w), steps), s.writers[w].stage.id;
             Polls(s', k) && Exact(s', k) && s'.nodes[k].pollStart < id <= s'.nodes[k].pollRev
    ensures var sent, id := Final(DoCommit(s, w), steps).nodes[k].sent, s.writers[w].stage.id;
            && Allowed(View(s.log), s.writers[w].op)
            && Announced(View(s.log), s.writers[w].op, id) in sent
            && forall e | e in sent && e.kv.modRev == id :: e == Announced(View(s.log), s.writers[w].op, id)
  {
    var s1, id := DoCommit(s, w), s.writers[w].stage.id;
    var s' := Final(s1, steps);
    CommittedEvent(s, w);
    CommitInv(s, w);
    LogGrows(s1, steps);
    LooseRun(s1, steps);
    var n := s'.nodes[k];
    SpanExact(s'.log, n.pollStart, n.pollRev);
    assert !IsFill(s'.log[id].name);
    assert Scan(id, s'.log[id]) in n.sent;
  }
}

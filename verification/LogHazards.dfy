/** What can go wrong when a compaction is not safe: for a pending write, and for a poller. */
module LogHazards {
  import opened Compaction
  import opened Kine
  import opened LogAnyRun
  import opened LogCompact
  import opened LogInvariant
  import opened LogMachine
  import opened LogPoll
  import opened LogTheorems

  /** A compaction that is not safe for a pending write opens the index to it: the insert is
      accepted although its previous row is not the latest of the key, or although a newer row
      of the key already has a higher id. */
  lemma UnsafeIsAccepted(s: State, w: nat, r: nat)
    requires Inv(s) && w in s.writers && !s.writers[w].stage.Committed?
    requires !SafeFor(Core(s.rows), s.writers[w], Victims(Core(s.rows), r))
    ensures var wr, rows' := s.writers[w], CompactTo(s.rows, r);
            && !Taken(rows', wr.row.name, wr.row.prev)
            && (!Tip(Core(rows'), wr.row.name, wr.row.prev) ||
                (wr.stage.Reserved? && !AllBelow(s.log, wr.row.name, wr.stage.id)))
  {
    var wr := s.writers[w];
    assert WriterOk(Core(s.rows), s.log, s.next, wr);
    SafeForExact(Core(s.rows), s.log, s.next, r, wr);
    CoreCompact(s.rows, s.next, r);
    CoreTaken(CompactTo(s.rows, r), wr.row.name, wr.row.prev);
  }

  /** The steps of a write, from read to commit. */
  function WriteSteps(w: nat, node: nat, op: Op): seq<Step> {
    [Read(w, node, op), Load(w), Reserve(w), Commit(w)]
  }

  /** The steps a pending write still needs before it can commit. */
  function CatchUp(w: nat, stage: Stage): seq<Step> {
    if stage.Decided? then [Load(w)] + [Reserve(w)] else if stage.Loaded? then [Reserve(w)] else []
  }

  lemma RunCons(s: State, step: Step, rest: seq<Step>)
    requires Enabled(s, step) && AnyRun(Apply(s, step), rest)
    ensures AnyRun(s, [step] + rest) && Final(s, [step] + rest) == Final(Apply(s, step), rest)
  {
    assert ([step] + rest)[1..] == rest;
  }

  lemma {:induction false} RunAppend(s: State, first: seq<Step>, second: seq<Step>)
    requires AnyRun(s, first) && AnyRun(Final(s, first), second)
    ensures AnyRun(s, first + second) && Final(s, first + second) == Final(Final(s, first), second)
    decreases |first|
  {
    if first == [] {
      assert first + second == second;
    } else {
      assert (first + second)[1..] == first[1..] + second;
      RunAppend(Apply(s, first[0]), first[1..], second);
    }
  }

  /** A create from an absent key, run to its commit without interruption. */
  lemma CreateRuns(s: State, w: nat, node: nat, op: Op)
    requires op.Create? && ClientKey(op.key) && node in s.nodes && w !in s.writers
    requires Tip(s.rows, op.key, 0) && s.next !in s.rows && 0 !in s.rows
    ensures AnyRun(s, WriteSteps(w, node, op))
    ensures var s', row := Final(s, WriteSteps(w, node, op)), Row(op.key, true, false, 0, 0, op.lease, op.value, "");
            && s'.rows == s.rows[s.next := row] && s'.log == s.log[s.next := row] && s'.next == s.next + 1
            && s'.nodes == s.nodes && (forall v | v in s.writers :: v in s'.writers && s'.writers[v] == s.writers[v])
  {
    assert Latest(s.rows, op.key) == 0;
    var s1 := Apply(s, Read(w, node, op));
    var s2 := Apply(s1, Load(w));
    var s3 := Apply(s2, Reserve(w));
    assert !Taken(s3.rows, op.key, 0);
    RunCons(s3, Commit(w), []);
    RunCons(s2, Reserve(w), [Commit(w)] + []);
    RunCons(s1, Load(w), [Reserve(w)] + ([Commit(w)] + []));
    RunCons(s, Read(w, node, op), [Load(w)] + ([Reserve(w)] + ([Commit(w)] + [])));
    assert WriteSteps(w, node, op) == [Read(w, node, op)] + ([Load(w)] + ([Reserve(w)] + ([Commit(w)] + [])));
  }

  lemma TombstoneGone(s: State, from: nat, r: nat, name: string, p: nat)
    requires Inv(s) && CanCompact(s, from, r) && ClientKey(name) && Tip(Core(s.rows), name, p)
    requires p in Victims(Core(s.rows), r)
    ensures Tip(DoCompact(s, r).rows, name, 0) && Loose(DoCompact(s, r))
  {
    CompactLoose(s, from, r);
    LatestIsTip(Core(s.rows), name);
    TipUnique(Core(s.rows), name, p, Latest(Core(s.rows), name));
    TipAfter(Core(s.rows), s.log, s.next, r, name);
    var rows' := DoCompact(s, r).rows;
    forall j | j in rows' ensures rows'[j].name != name {
      assert j in Core(rows') || IsFill(rows'[j].name);
    }
  }

  /** A pending write catches up to the point of its commit. */
  lemma CatchesUp(s: State, w: nat)
    requires Loose(s) && HasStage(s, w) && !s.writers[w].stage.Committed?
    requires s.writers[w].stage.Reserved? ==> s.writers[w].stage.id !in s.rows
    ensures var steps := CatchUp(w, s.writers[w].stage);
            && AnyRun(s, steps)
            && var s' := Final(s, steps);
               && s'.rows == s.rows && s'.log == s.log && HasStage(s', w)
               && s'.writers[w].stage.Reserved? && s'.writers[w].stage.id !in s.rows
               && s'.writers[w].row == s.writers[w].row && s'.writers[w].op == s.writers[w].op
  {
    assert s.next !in s.rows;
    if s.writers[w].stage.Decided? {
      var s1 := Apply(s, Load(w));
      RunCons(s1, Reserve(w), []);
      assert [Reserve(w)] + [] == [Reserve(w)];
      RunCons(s, Load(w), [Reserve(w)]);
    } else if s.writers[w].stage.Loaded? {
      RunCons(s, Reserve(w), []);
      assert [Reserve(w)] + [] == [Reserve(w)];
    }
  }

  /** After these steps the database accepts the insert of write a, for this operation. */
  ghost predicate Accepts(s: State, steps: seq<Step>, a: nat, op: Op) {
    AnyRun(s, steps) && CanCommit(Final(s, steps), a) && Final(s, steps).writers[a].op == op
  }

  /** With the key absent, a whole create by b runs, and the create of a that was decided earlier
      is still accepted by the index. */
  lemma SecondCreate(s1: State, a: nat, b: nat, op: Op)
    requires Loose(s1) && HasStage(s1, a) && !s1.writers[a].stage.Committed?
    requires s1.writers[a].row.name == op.key && s1.writers[a].row.prev != 0
    requires s1.writers[a].stage.Reserved? ==> s1.writers[a].stage.id !in s1.rows
    requires b !in s1.writers && op.Create? && ClientKey(op.key) && Tip(s1.rows, op.key, 0)
    ensures var steps := WriteSteps(b, s1.writers[a].node, op) + CatchUp(a, s1.writers[a].stage);
            Accepts(s1, steps, a, s1.writers[a].op) && op.key in View(Final(s1, steps).log)
  {
    var node := s1.writers[a].node;
    assert WriterSound(s1.log, s1.next, s1.writers[a]);
    CreateRuns(s1, b, node, op);
    var s2 := Final(s1, WriteSteps(b, node, op));
    LooseRun(s1, WriteSteps(b, node, op));
    CatchesUp(s2, a);
    RunAppend(s1, WriteSteps(b, node, op), CatchUp(a, s1.writers[a].stage));
    LateCommit(s1, s2.rows, s2.log, op.key, s1.writers[a].row.prev);
  }

  lemma LateCommit(s1: State, rows: Table, log: Table, name: string, p: nat)
    requires Loose(s1) && Tip(s1.rows, name, 0) && p != 0 && s1.next in rows
    requires rows[s1.next].name == name && rows[s1.next].prev == 0 && !rows[s1.next].deleted
    requires rows == s1.rows[s1.next := rows[s1.next]] && log == s1.log[s1.next := rows[s1.next]]
    ensures !Taken(rows, name, p) && name in View(log)
  {
    assert forall k | k in rows && rows[k].name == name :: rows[k].prev == 0;
    LatestTip(log, name, s1.next);
    ViewAt(log, name);
  }

  /** Two creates of one key both succeed: the first has read the key's tombstone, a compaction
      removes it, the second finds the key absent and commits, and the index, which never saw
      two rows with the same previous revision, lets the first commit as well, however far it had
      come by then. */
  lemma DoubleCreate(s: State, compact: Step, a: nat, b: nat, op: Op)
    requires Inv(s) && compact.Compact? && Enabled(s, compact)
    requires HasStage(s, a) && s.writers[a].op.Create? && !s.writers[a].stage.Committed? && s.writers[a].row.prev != 0
    requires s.writers[a].stage.Reserved? ==> s.writers[a].stage.id !in s.rows
    requires !Taken(s.rows, s.writers[a].row.name, s.writers[a].row.prev)
    requires s.writers[a].row.prev in Victims(Core(s.rows), Target(s, compact))
    requires b !in s.writers && op.Create? && op.key == s.writers[a].op.key
    ensures var steps := [compact] + (WriteSteps(b, s.writers[a].node, op) + CatchUp(a, s.writers[a].stage));
            Accepts(s, steps, a, s.writers[a].op) && op.key in View(Final(s, steps).log)
  {
    var r, wr := Target(s, compact), s.writers[a];
    assert WriterOk(Core(s.rows), s.log, s.next, wr);
    CoreTaken(s.rows, wr.row.name, wr.row.prev);
    TombstoneGone(s, compact.from, r, op.key, wr.row.prev);
    CompactedRows(s.rows, r);
    SecondCreate(DoCompact(s, r), a, b, op);
    RunCons(s, compact, WriteSteps(b, wr.node, op) + CatchUp(a, wr.stage));
  }

  /** Once a fill has been compacted away, the write whose id it blocked commits there after all,
      at an id the poller has passed, and the poller never sends it. */
  lemma FilledIdReused(s: State, w: nat, from: nat, r: nat, k: nat)
    requires Loose(s) && Exact(s, k) && HasStage(s, w) && s.writers[w].stage.Reserved? && Polls(s, k)
    requires CanCompact(s, from, r)
    requires s.writers[w].stage.id in Victims(s.rows, r) && !Taken(s.rows, s.writers[w].row.name, s.writers[w].row.prev)
    requires s.nodes[k].pollStart < s.writers[w].stage.id <= Passed(s.nodes[k])
    ensures var s1 := DoCompact(s, r); CanCommit(s1, w) && Missed(DoCommit(s1, w), k, s.writers[w].stage.id)
  {
    var wr := s.writers[w];
    assert WriterSound(s.log, s.next, wr);
    CompactLoose(s, from, r);
    CompactedRows(s.rows, r);
    TakenAfter(s.rows, r, wr.row.name, wr.row.prev);
    CommitBehind(DoCompact(s, r), w, k);
  }
}

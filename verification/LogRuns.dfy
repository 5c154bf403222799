/** Write-safe runs of the log from any state, built step by step. */
module LogRuns {
  import opened Kine
  import opened LogMachine

  ghost predicate Leads(s0: State, steps: seq<Step>, s: State) {
    WriteSafeRun(s0, steps) && AnyRun(s0, steps) && Final(s0, steps) == s
  }

  /** Some write-safe run leads from one state to the other. */
  ghost predicate Reaches(s0: State, s: State) {
    exists steps :: Leads(s0, steps, s)
  }

  lemma Here(s: State)
    ensures Reaches(s, s)
  {
    assert Leads(s, [], s);
  }

  lemma {:induction false} RunSnoc(s: State, steps: seq<Step>, step: Step)
    requires WriteSafeRun(s, steps) && AnyRun(s, steps) && WriteSafe(Final(s, steps), step)
    ensures WriteSafeRun(s, steps + [step]) && AnyRun(s, steps + [step])
    ensures Final(s, steps + [step]) == Apply(Final(s, steps), step)
    decreases |steps|
  {
    if steps == [] {
      assert [] + [step] == [step] && [step][1..] == [];
    } else {
      assert (steps + [step])[1..] == steps[1..] + [step];
      RunSnoc(Apply(s, steps[0]), steps[1..], step);
    }
  }

  lemma Extend(s0: State, s: State, step: Step)
    requires Reaches(s0, s) && WriteSafe(s, step)
    ensures Reaches(s0, Apply(s, step))
  {
    var steps :| Leads(s0, steps, s);
    RunSnoc(s0, steps, step);
    assert Leads(s0, steps + [step], Apply(s, step));
  }

  /** A write that its read lets through has reserved the next id. */
  lemma Reserves(s0: State, s: State, w: nat, k: nat, op: Op) returns (s': State)
    requires Reaches(s0, s) && CanRead(s, w, k, op)
    ensures Reaches(s0, s') && s'.rows == s.rows && s'.log == s.log && s'.nodes == s.nodes && s'.next == s.next + 1
    ensures w in s'.writers && s'.writers[w].row == Decide(s.rows, op).row && s'.writers[w].op == op
    ensures s'.writers[w].node == k && s'.writers[w].stage.Reserved? && s'.writers[w].stage.id == s.next
    ensures forall v :: v in s'.writers <==> v in s.writers || v == w
    ensures forall v | v in s.writers :: s'.writers[v] == s.writers[v]
  {
    var s1 := Apply(s, Read(w, k, op));
    Extend(s0, s, Read(w, k, op));
    var s2 := Apply(s1, Load(w));
    Extend(s0, s1, Load(w));
    s' := Apply(s2, Reserve(w));
    Extend(s0, s2, Reserve(w));
  }

  /** A write that neither its read nor the index refuses has committed. */
  lemma Commits(s0: State, s: State, w: nat, k: nat, op: Op) returns (s': State)
    requires Reaches(s0, s) && CanRead(s, w, k, op)
    requires s.next !in s.rows && !Taken(s.rows, op.key, Decide(s.rows, op).row.prev)
    ensures var row := Decide(s.rows, op).row;
            var new_ := row.(oldValue := OldValue(s.rows, row.prev));
            s'.rows == s.rows[s.next := new_] && s'.log == s.log[s.next := new_]
    ensures Reaches(s0, s') && s'.nodes == s.nodes && s'.next == s.next + 1
    ensures forall v :: v in s'.writers <==> v in s.writers || v == w
    ensures s'.writers[w].stage.Committed? && forall v | v in s.writers :: s'.writers[v] == s.writers[v]
  {
    var s1 := Reserves(s0, s, w, k, op);
    s' := Apply(s1, Commit(w));
    Extend(s0, s1, Commit(w));
  }

  /** A pending write gets as far as its insert, with another id if its own is in use. */
  lemma ReachesInsert(s0: State, s: State, w: nat) returns (s': State)
    requires Reaches(s0, s) && HasStage(s, w) && !s.writers[w].stage.Committed? && s.next !in s.rows
    ensures Reaches(s0, s') && s'.rows == s.rows && s'.log == s.log && s'.nodes == s.nodes && s.next <= s'.next
    ensures s'.writers.Keys == s.writers.Keys && s'.writers[w].stage.Reserved? && s'.writers[w].stage.id !in s.rows
    ensures s'.writers[w] == s.writers[w].(stage := s'.writers[w].stage)
    ensures s.writers[w].stage.Reserved? && s.writers[w].stage.id !in s.rows ==> s' == s
  {
    s' := s;
    if s.writers[w].stage.Decided? {
      Extend(s0, s, Load(w));
      s' := Apply(s, Load(w));
    }
    if s'.writers[w].stage.Loaded? {
      Extend(s0, s', Reserve(w));
      s' := Apply(s', Reserve(w));
    } else if s'.writers[w].stage.id in s.rows {
      Extend(s0, s', Retry(w));
      s' := Apply(s', Retry(w));
    }
  }
}

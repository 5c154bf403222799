/** The cached revision of a node: what every step leaves there, and when a write publishes its own. */
module LogCache {
  import opened Kine
  import opened LogAnyRun
  import opened LogInvariant
  import opened LogMachine

  /** The cached revision of a node after a step. A compare-and-swap stores its value exactly if the cell still
      holds what it was loaded as: the value at the load, the last revision polled, or nothing. */
  lemma CachedAfter(s: State, step: Step, k: nat)
    requires Enabled(s, step) && k in s.nodes
    ensures k in Apply(s, step).nodes
    ensures var was, after := s.nodes[k].currentRev, Apply(s, step).nodes[k].currentRev;
            if step.CasAppend? && s.writers[step.writer].node == k then
              var st := s.writers[step.writer].stage;
              (was == st.cur ==> after == st.id) && (was != st.cur ==> after == was)
            else if step.CasPoll? && step.node == k then
              (was == s.nodes[k].pollRev ==> after == s.nodes[k].pending.value.rev) &&
                  (was != s.nodes[k].pollRev ==> after == was)
            else if step.LazyCas? && step.node == k then
              (was == 0 ==> after == step.rev) && (was != 0 ==> after == was)
            else after == was
  {
  }

  /** A lazy initialisation stores the highest id at its read, unless the node has learnt one meanwhile. */
  lemma LazyStores(s: State, k: nat)
    requires CanLazyRead(s, k)
    ensures var s1 := DoLazyRead(s, k);
            CanLazyCas(s1, k, MaxId(s.rows)) && DoLazyCas(s1, k, MaxId(s.rows)).nodes[k].currentRev == MaxId(s.rows)
  {
  }

  /** The write goes on: it is neither aborted nor finished by these steps. */
  ghost predicate GoesOn(steps: seq<Step>, w: nat) {
    forall i | 0 <= i < |steps| :: steps[i] != Abort(w) && steps[i] != CasAppend(w)
  }

  /** From its load on, a write remembers the cached revision it loaded. */
  lemma {:induction false} RemembersLoad(s: State, steps: seq<Step>, w: nat, cur: nat)
    requires AnyRun(s, steps) && GoesOn(steps, w) && w in s.writers && !s.writers[w].stage.Decided?
    requires s.writers[w].stage.cur == cur
    ensures w in Final(s, steps).writers && !Final(s, steps).writers[w].stage.Decided?
    ensures Final(s, steps).writers[w].stage.cur == cur && Final(s, steps).writers[w].node == s.writers[w].node
    decreases |steps|
  {
    if steps != [] {
      assert steps[0] != Abort(w) && steps[0] != CasAppend(w);
      LoadStays(s, steps[0], w);
      RemembersLoad(Apply(s, steps[0]), steps[1..], w, cur);
    }
  }

  lemma LoadStays(s: State, step: Step, w: nat)
    requires Enabled(s, step) && w in s.writers && !s.writers[w].stage.Decided? && step != Abort(w)
    requires step != CasAppend(w)
    ensures w in Apply(s, step).writers && !Apply(s, step).writers[w].stage.Decided?
    ensures Apply(s, step).writers[w].stage.cur == s.writers[w].stage.cur
    ensures Apply(s, step).writers[w].node == s.writers[w].node
  {
  }

  /** A write that has committed publishes its revision if and only if nothing else has moved the cached
      revision since its load. */
  lemma PublishesOwn(s: State, steps: seq<Step>, w: nat)
    requires Loose(s) && CanLoad(s, w) && AnyRun(DoLoad(s, w), steps) && GoesOn(steps, w)
    requires CanCasAppend(Final(DoLoad(s, w), steps), w)
    ensures var s2, k := Final(DoLoad(s, w), steps), s.writers[w].node;
            && s2.writers[w].node == k && k in s.nodes
            && var after := DoCasAppend(s2, w).nodes[k].currentRev;
               && (after == s2.writers[w].stage.id <==>
                     s2.nodes[k].currentRev == s.nodes[k].currentRev ||
                         s2.nodes[k].currentRev == s2.writers[w].stage.id)
               && (s2.nodes[k].currentRev != s.nodes[k].currentRev ==> after == s2.nodes[k].currentRev)
               && s.nodes[k].currentRev < s2.writers[w].stage.id
  {
    var s1 := DoLoad(s, w);
    RemembersLoad(s1, steps, w, s.nodes[s.writers[w].node].currentRev);
    LooseStep(s, Load(w));
    LooseRun(s1, steps);
    assert WriterSound(Final(s1, steps).log, Final(s1, steps).next, Final(s1, steps).writers[w]);
  }

  /** A poller publishes how far it has sent, and so wakes those who wait for that revision. */
  lemma PublishesPolled(s: State, k: nat)
    requires CanPublish(s, k)
    ensures DoPublish(s, k).nodes[k].polledRev == s.nodes[k].pollRev
  {
  }
}

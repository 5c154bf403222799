/** Lease expiry as a protocol: clients write, an event loop (and the initial seed) records
    deadlines, and one handler deletes what has expired. The delaying queue only decides when the
    handler looks at a key, so here it may look at any key at any time. */
module Ttl {
  import opened Text

  datatype Version = Version(key: string, lease: int, at: nat)

  datatype Entry = Entry(modRev: nat, expiredAt: nat)

  /** The handler has found an expired entry and goes on to delete that version, then to forget the key. */
  datatype Handler = Idle | Deleting(key: string, modRev: nat) | Forgetting(key: string, modRev: nat)

  /** A version the TTL handler has removed, and when. */
  datatype Removal = Removal(modRev: nat, at: nat)

  /** `written` records every version, `live` the current one of each key. The initial seed anchors
      itself at a revision and has `seeding` left to record; after it the event loop goes through
      the revisions, up to `seen` so far. `store` holds the recorded deadlines. */
  datatype State = State(now: nat, rev: nat, written: map<nat, Version>, live: map<string, nat>,
                         anchored: bool, seeding: map<string, nat>, seen: nat,
                         store: map<string, Entry>, handler: Handler, removed: seq<Removal>)

  const INIT := State(0, 0, map[], map[], false, map[], 0, map[], Idle, [])

  datatype Step =
    | Tick(elapsed: nat)
    | Write(key: string, lease: int)
    | Remove(key: string)
    | Anchor                             // the first page of the seed fixes its revision
    | Seed(key: string, again: bool)     // one listed key is recorded; a page restarts at the last key
    | Observe                            // the next revision reaches the event loop
    | Check(key: string)
    | Delete
    | Fail                 // the delete fails for a transient reason
    | Forget

  ghost predicate Enabled(s: State, step: Step) {
    match step
    case Tick(_) => true
    case Write(_, _) => true
    case Remove(key) => key in s.live
    case Anchor => !s.anchored
    case Seed(key, _) => key in s.seeding && s.seeding[key] in s.written
    case Observe => s.anchored && s.seeding == map[] && s.seen < s.rev
    // one step: the deadline test and the read of the revision to delete
    case Check(key) => s.handler.Idle? && key in s.store && s.store[key].expiredAt <= s.now
    case Delete => s.handler.Deleting?
    case Fail => s.handler.Deleting?
    case Forget => s.handler.Forgetting?
  }

  /** The keys the seed lists. */
  predicate Listed(key: string) {
    Between(key, "/", "0")
  }

  /** They are the keys that begin with a slash. */
  lemma ListedIsRooted(key: string)
    ensures Listed(key) <==> HasPrefix(key, "/")
  {
    if key != "" {
      assert "/"[1..] == "" && "0"[1..] == "" && !Less(key[1..], "");
      assert key[..1] == [key[0]] && (key[..1] == "/" <==> key[0] == '/');
      assert key[0] < '/' || key[0] == '/' || '0' <= key[0];
    }
  }

  /** The leased keys of the seed's listing. */
  ghost function Leased(s: State): map<string, nat> {
    map k | k in s.live && s.live[k] in s.written && s.written[s.live[k]].lease > 0 && Listed(k) :: s.live[k]
  }

  ghost function Ttl(s: State, m: nat): nat
    requires m in s.written
  {
    if s.written[m].lease > 0 then s.written[m].lease else 0
  }

  /** The event loop: a leased version newer than the recorded one sets the deadline. */
  ghost function Save(s: State, m: nat): map<string, Entry> {
    if m in s.written && s.written[m].lease > 0 then
      var v := s.written[m];
      if v.key !in s.store || m > s.store[v.key].modRev then s.store[v.key := Entry(m, s.now + v.lease)] else s.store
    else s.store
  }

  ghost function Apply(s: State, step: Step): State
    requires Enabled(s, step)
  {
    match step
    case Tick(elapsed) => s.(now := s.now + elapsed)
    case Write(key, lease) =>
      s.(rev := s.rev + 1, written := s.written[s.rev + 1 := Version(key, lease, s.now)],
          live := s.live[key := s.rev + 1])
    case Remove(key) => s.(rev := s.rev + 1, live := s.live - {key})
    case Anchor => s.(anchored := true, seen := s.rev, seeding := Leased(s))
    case Seed(key, again) =>
      s.(store := s.store[key := Entry(s.seeding[key], s.now + Ttl(s, s.seeding[key]))],
         seeding := if again then s.seeding else s.seeding - {key})
    case Observe => s.(seen := s.seen + 1, store := Save(s, s.seen + 1))
    case Check(key) => s.(handler := Deleting(key, s.store[key].modRev))
    case Delete =>
      var key, m := s.handler.key, s.handler.modRev;
      var s' := s.(handler := Forgetting(key, m));
      // the backend deletes only the version it is asked for
      if key in s.live && s.live[key] == m then
        s'.(rev := s.rev + 1, live := s.live - {key}, removed := s.removed + [Removal(m, s.now)])
      else s'
    case Fail => s.(handler := Idle)
    case Forget => s.(store := s.store - {s.handler.key}, handler := Idle)
  }

  ghost predicate Run(s: State, steps: seq<Step>)
    decreases |steps|
  {
    steps == [] || (Enabled(s, steps[0]) && Run(Apply(s, steps[0]), steps[1..]))
  }

  ghost function Final(s: State, steps: seq<Step>): State
    requires Run(s, steps)
    decreases |steps|
  {
    if steps == [] then s else Final(Apply(s, steps[0]), steps[1..])
  }

  /** Every change of the store takes the next revision, and nothing else takes one. */
  lemma ChangesTakeRevisions(s: State, step: Step)
    requires Enabled(s, step)
    ensures var s' := Apply(s, step);
            s'.rev == s.rev + if step.Write? || step.Remove? || |s'.removed| > |s.removed| then 1 else 0
    ensures var s' := Apply(s, step); s'.rev == s.rev ==> s'.live == s.live && s'.written == s.written
    ensures step.Write? ==> Apply(s, step).live == s.live[step.key := s.rev + 1]
    ensures step.Remove? ==> Apply(s, step).live == s.live - {step.key}
  {
  }

  /** After a delete that fails for a transient reason, the version is still on record and due. */
  lemma FailedIsRetried(s: State)
    requires Enabled(s, Fail) && s.handler.key in s.store && s.store[s.handler.key].expiredAt <= s.now
    ensures var s' := Apply(s, Fail); s'.store == s.store && s'.live == s.live && Enabled(s', Check(s.handler.key))
  {
  }

  // ----- safety -----

  /** Version m had a lease, and it has elapsed by time t. */
  ghost predicate Elapsed(written: map<nat, Version>, m: nat, t: nat) {
    m in written && written[m].lease > 0 && written[m].at + written[m].lease <= t
  }

  /** m is a leased version of the key that the loop has seen. */
  ghost predicate Known(written: map<nat, Version>, k: string, m: nat, seen: nat) {
    m in written && written[m].key == k && written[m].lease > 0 && m <= seen
  }

  ghost predicate VersionsOk(written: map<nat, Version>, live: map<string, nat>, rev: nat, now: nat) {
    && (forall m | m in written :: 0 < m <= rev && written[m].at <= now)
    && (forall k | k in live :: live[k] in written && written[live[k]].key == k)
    && (forall m, k | m in written && k in live && written[m].key == k :: m <= live[k])
  }

  ghost predicate StoreOk(written: map<nat, Version>, store: map<string, Entry>, seeding: map<string, nat>, seen: nat) {
    && (forall k | k in store ::
          Known(written, k, store[k].modRev, seen) && Elapsed(written, store[k].modRev, store[k].expiredAt))
    && (forall k | k in seeding :: Known(written, k, seeding[k], seen))
  }

  /** A recorded deadline is no later than a whole lease from now. */
  ghost predicate DeadlinesOk(written: map<nat, Version>, store: map<string, Entry>, now: nat) {
    forall k | k in store :: store[k].modRev in written && store[k].expiredAt <= now + written[store[k].modRev].lease
  }

  ghost predicate HandlerOk(written: map<nat, Version>, handler: Handler, now: nat) {
    !handler.Idle? ==> Elapsed(written, handler.modRev, now) && written[handler.modRev].key == handler.key
  }

  ghost predicate RemovedOk(written: map<nat, Version>, removed: seq<Removal>, now: nat) {
    forall i | 0 <= i < |removed| :: removed[i].at <= now && Elapsed(written, removed[i].modRev, removed[i].at)
  }

  ghost predicate Inv(s: State) {
    && VersionsOk(s.written, s.live, s.rev, s.now)
    && s.seen <= s.rev
    && StoreOk(s.written, s.store, s.seeding, s.seen)
    && DeadlinesOk(s.written, s.store, s.now)
    && HandlerOk(s.written, s.handler, s.now)
    && RemovedOk(s.written, s.removed, s.now)
  }

  predicate LoopStep(step: Step) {
    step.Anchor? || step.Seed? || step.Observe?
  }

  lemma SaveOk(s: State)
    requires Inv(s) && s.seen < s.rev
    ensures StoreOk(s.written, Save(s, s.seen + 1), s.seeding, s.seen + 1)
  {
  }

  lemma LoopStepInv(s: State, step: Step)
    requires Inv(s) && Enabled(s, step) && LoopStep(step)
    ensures Inv(Apply(s, step))
  {
    if step.Observe? {
      SaveOk(s);
    } else if step.Seed? {
      assert Known(s.written, step.key, s.seeding[step.key], s.seen);
    }
  }

  predicate ClientStep(step: Step) {
    step.Tick? || step.Write? || step.Remove?
  }

  lemma WriteInv(s: State, step: Step)
    requires Inv(s) && Enabled(s, step) && step.Write?
    ensures Inv(Apply(s, step))
  {
    var s' := Apply(s, step);
    assert forall m | m in s.written :: m in s'.written && s'.written[m] == s.written[m];
  }

  lemma ClientStepInv(s: State, step: Step)
    requires Inv(s) && Enabled(s, step) && ClientStep(step)
    ensures Inv(Apply(s, step))
  {
    if step.Write? { WriteInv(s, step); }
  }

  lemma HandlerStepInv(s: State, step: Step)
    requires Inv(s) && Enabled(s, step) && !LoopStep(step) && !ClientStep(step)
    ensures Inv(Apply(s, step))
  {
  }

  lemma StepInv(s: State, step: Step)
    requires Inv(s) && Enabled(s, step)
    ensures Inv(Apply(s, step))
  {
    if LoopStep(step) { LoopStepInv(s, step); }
    else if ClientStep(step) { ClientStepInv(s, step); }
    else { HandlerStepInv(s, step); }
  }

  lemma {:induction false} RunInv(s: State, steps: seq<Step>)
    requires Inv(s) && Run(s, steps)
    ensures Inv(Final(s, steps))
    decreases |steps|
  {
    if steps != [] {
      StepInv(s, steps[0]);
      RunInv(Apply(s, steps[0]), steps[1..]);
    }
  }

  /** In every interleaving, the TTL handler removes a version only after that version's own lease
      has elapsed. */
  lemma NoEarlyRemoval(steps: seq<Step>)
    requires Run(INIT, steps)
    ensures var s := Final(INIT, steps);
            forall i | 0 <= i < |s.removed| :: Elapsed(s.written, s.removed[i].modRev, s.removed[i].at)
  {
    RunInv(INIT, steps);
  }

  /** In every interleaving, a recorded deadline lies between the end of the version's lease and a whole lease
      from now. */
  lemma DeadlineBounds(steps: seq<Step>, k: string)
    requires Run(INIT, steps) && k in Final(INIT, steps).store
    ensures var s := Final(INIT, steps); var e := s.store[k];
            && e.modRev in s.written && s.written[e.modRev].key == k && s.written[e.modRev].lease > 0
            && s.written[e.modRev].at + s.written[e.modRev].lease <= e.expiredAt <= s.now + s.written[e.modRev].lease
  {
    RunInv(INIT, steps);
  }

  /** A lease from now, the handler can remove a version that is on record and still the live one. */
  lemma ExpiresWhenDue(s: State, k: string)
    requires Inv(s) && s.handler.Idle? && k in s.store && k in s.live && s.live[k] == s.store[k].modRev
    ensures var s1 := Apply(s, Tick(s.written[s.store[k].modRev].lease));
            && Enabled(s1, Check(k)) && Enabled(Apply(s1, Check(k)), Delete)
            && var s3 := Apply(Apply(s1, Check(k)), Delete);
               k !in s3.live && s3.removed == s.removed + [Removal(s.live[k], s1.now)]
  {
  }

  /** A delete of the handler leaves every version but an expired one alone; a version written
      after the check, with or without a lease, survives it. */
  lemma LaterVersionsSurvive(s: State, k: string)
    requires Inv(s) && Enabled(s, Delete) && k in s.live
    ensures var s' := Apply(s, Delete);
            || (k in s'.live && s'.live[k] == s.live[k])
            || (k == s.handler.key && s.live[k] == s.handler.modRev && Elapsed(s.written, s.live[k], s.now))
  {
  }

  // ----- is every lease remembered? -----

  /** A live, leased version the loop has seen is recorded, or about to be, so that it will expire. */
  ghost predicate Remembered(s: State, k: string)
    requires k in s.live && s.live[k] in s.written
  {
    s.written[s.live[k]].lease > 0 && s.live[k] <= s.seen ==>
      (k in s.store && s.store[k].modRev == s.live[k]) || (k in s.seeding && s.seeding[k] == s.live[k])
  }

  ghost predicate AllRemembered(s: State) {
    && (forall k | k in s.live && s.live[k] in s.written :: Remembered(s, k))
    && (!s.anchored ==> s.seen == 0 && s.store == map[] && s.seeding == map[])
    && (forall k | k in s.store && k in s.seeding :: s.store[k].modRev == s.seeding[k])
  }

  /** Forgetting a key loses a lease exactly when the version on record is the live one and no
      longer due to be seeded; anchoring the seed loses the leases of keys it does not list. */
  ghost predicate Harmless(s: State, step: Step)
    requires Enabled(s, step)
  {
    && (step.Forget? ==>
          var k := s.handler.key;
          !(k in s.live && k in s.store && s.live[k] == s.store[k].modRev && k !in s.seeding))
    && (step.Anchor? ==>
        forall k | k in s.live && s.live[k] in s.written && s.written[s.live[k]].lease > 0 :: Listed(k))
  }

  lemma LoopRemembers(s: State, step: Step)
    requires Inv(s) && AllRemembered(s) && Enabled(s, step) && LoopStep(step) && Harmless(s, step)
    ensures AllRemembered(Apply(s, step))
  {
    var s' := Apply(s, step);
    forall k | k in s'.live && s'.live[k] in s'.written ensures Remembered(s', k) {
      assert Remembered(s, k);
    }
  }

  lemma OthersRemember(s: State, step: Step)
    requires Inv(s) && AllRemembered(s) && Enabled(s, step) && !LoopStep(step) && Harmless(s, step)
    ensures AllRemembered(Apply(s, step))
  {
    var s' := Apply(s, step);
    forall k | k in s'.live && s'.live[k] in s'.written ensures Remembered(s', k) {
      if k in s.live { assert Remembered(s, k); }
    }
  }

  /** One step keeps every lease remembered if and only if it is harmless: a lease is lost only when a
      version is recorded between the handler's check and its forgetting, or when its key lies outside
      the range of the seed and was written before it. */
  lemma RememberedIff(s: State, step: Step)
    requires Inv(s) && AllRemembered(s) && Enabled(s, step)
    ensures AllRemembered(Apply(s, step)) <==> Harmless(s, step)
  {
    if !Harmless(s, step) {
      if step.Anchor? {
        var k :| k in s.live && s.live[k] in s.written && s.written[s.live[k]].lease > 0 && !Listed(k);
        assert !Remembered(Apply(s, step), k);
      } else {
        assert !Remembered(Apply(s, step), s.handler.key);
      }
    } else if LoopStep(step) {
      LoopRemembers(s, step);
    } else {
      OthersRemember(s, step);
    }
  }

  ghost predicate HarmlessRun(s: State, steps: seq<Step>)
    decreases |steps|
  {
    steps == [] || (Enabled(s, steps[0]) && Harmless(s, steps[0]) && HarmlessRun(Apply(s, steps[0]), steps[1..]))
  }

  /** In every run of harmless steps, every leased version the loop has seen stays on
      record while it is live. */
  lemma {:induction false} LeasesRemembered(s: State, steps: seq<Step>)
    requires Inv(s) && AllRemembered(s) && HarmlessRun(s, steps)
    ensures Run(s, steps) && AllRemembered(Final(s, steps))
    decreases |steps|
  {
    if steps != [] {
      StepInv(s, steps[0]);
      RememberedIff(s, steps[0]);
      LeasesRemembered(Apply(s, steps[0]), steps[1..]);
    }
  }

  /** The key is live and leased, the loop has seen it, and nothing is on record to expire it. */
  ghost predicate Lost(s: State, k: string) {
    k in s.live && Known(s.written, k, s.live[k], s.seen) && k !in s.store && k !in s.seeding
  }

  /** A renewal that reaches the event loop while the handler is between its delete and its
      forgetting is lost: the renewed version stays live, leased, and unrecorded. */
  lemma LostLease(s: State, lease: int)
    requires Inv(s) && s.handler.Forgetting? && s.anchored && s.seeding == map[] && s.seen == s.rev && lease > 0
    ensures var k := s.handler.key;
            var s1 := Apply(s, Write(k, lease));
            && Enabled(s1, Observe) && Enabled(Apply(s1, Observe), Forget)
            && var s3 := Apply(Apply(s1, Observe), Forget);
               Lost(s3, k) && s3.live[k] == s.rev + 1
  {
  }

  // ----- the losses do occur -----

  ghost predicate Leads(steps: seq<Step>, s: State) {
    Run(INIT, steps) && Final(INIT, steps) == s
  }

  ghost predicate Reachable(s: State) {
    exists steps :: Leads(steps, s)
  }

  lemma {:induction false} RunSnoc(s: State, steps: seq<Step>, step: Step)
    requires Run(s, steps) && Enabled(Final(s, steps), step)
    ensures Run(s, steps + [step]) && Final(s, steps + [step]) == Apply(Final(s, steps), step)
    decreases |steps|
  {
    if steps == [] {
      assert [] + [step] == [step] && [step][1..] == [];
    } else {
      assert (steps + [step])[1..] == steps[1..] + [step];
      RunSnoc(Apply(s, steps[0]), steps[1..], step);
    }
  }

  lemma OneStep(s: State, step: Step)
    requires Reachable(s) && Enabled(s, step)
    ensures Reachable(Apply(s, step))
  {
    var steps :| Leads(steps, s);
    RunSnoc(INIT, steps, step);
    assert Leads(steps + [step], Apply(s, step));
  }

  /** A key has been written with a lease of one and its lease has been recorded. */
  lemma Seeded(k: string) returns (s: State)
    requires Listed(k)
    ensures Reachable(s) && s.anchored && s.seeding == map[] && s.seen == s.rev == 1 && s.now == 0 && s.handler.Idle?
    ensures s.live == map[k := 1] && s.written == map[1 := Version(k, 1, 0)] && s.store == map[k := Entry(1, 1)]
  {
    assert Leads([], INIT);
    var s1 := Apply(INIT, Write(k, 1));
    OneStep(INIT, Write(k, 1));
    var s2 := Apply(s1, Anchor);
    OneStep(s1, Anchor);
    assert s2.seeding == map[k := 1];
    s := Apply(s2, Seed(k, false));
    OneStep(s2, Seed(k, false));
  }

  /** The lease has elapsed, and the handler has deleted the key but not forgotten it. */
  lemma Deleted(k: string) returns (s: State)
    requires Listed(k)
    ensures Reachable(s) && s.handler == Forgetting(k, 1) && s.anchored && s.seeding == map[] && s.seen == s.rev
  {
    var s3 := Seeded(k);
    var s4 := Apply(s3, Tick(1));
    OneStep(s3, Tick(1));
    var s5 := Apply(s4, Check(k));
    OneStep(s4, Check(k));
    var s6 := Apply(s5, Delete);
    OneStep(s5, Delete);
    s := Apply(s6, Observe);
    OneStep(s6, Observe);
  }

  /** From the initial state, a renewal of any listed key can be lost. */
  lemma LostLeaseHappens(k: string, lease: int) returns (s: State)
    requires Listed(k) && lease > 0
    ensures Reachable(s) && Lost(s, k)
  {
    var s0 := Deleted(k);
    var steps :| Leads(steps, s0);
    RunInv(INIT, steps);
    LostLease(s0, lease);
    var s1 := Apply(s0, Write(k, lease));
    OneStep(s0, Write(k, lease));
    var s2 := Apply(s1, Observe);
    OneStep(s1, Observe);
    s := Apply(s2, Forget);
    OneStep(s2, Forget);
  }

  /** From the initial state, a lease on any key the seed does not list is lost at start-up. */
  lemma UnlistedLeaseHappens(k: string, lease: int) returns (s: State)
    requires !Listed(k) && lease > 0
    ensures Reachable(s) && Lost(s, k)
  {
    assert Leads([], INIT);
    var s1 := Apply(INIT, Write(k, lease));
    OneStep(INIT, Write(k, lease));
    s := Apply(s1, Anchor);
    OneStep(s1, Anchor);
  }
}

/** The compactor: one guarded transaction, and the loop that reaches a target in batches. */
module Compactor {
  import opened Kine
  import opened Compaction

  datatype Status = Committed | ErrCompacted

  const MIN_COMPACT_BATCH_SIZE := 100

  /** Some row records the compact revision and no row replaces it. */
  ghost predicate Records(t: Table) {
    exists z :: RecordsAt(t, z)
  }

  ghost predicate RecordsAt(t: Table, z: nat) {
    z in t && t[z].name == COMPACT_REV_KEY && !t[z].deleted &&
    forall k | k in t && t[k].name != COMPACT_REV_KEY :: t[k].prev != z
  }

  lemma RecordAfterSet(t: Table, z: nat, r: nat)
    requires z in t && t[z].name == COMPACT_REV_KEY
    ensures CompactRev(SetCompactRev(t, r)) == r
  {
    var u := SetCompactRev(t, r);
    assert u[z].name == COMPACT_REV_KEY && u[z].prev == r;
  }

  lemma RecordsKept(t: Table, r: nat)
    requires Records(t)
    ensures Records(CompactTo(t, r)) && CompactRev(CompactTo(t, r)) == r
  {
    var z :| RecordsAt(t, z);
    RecordAfterSet(t - Victims(t, r), z, r);
    CompactedRows(t, r);
    assert RecordsAt(CompactTo(t, r), z);
  }

  /** Compacting strictly below the highest id never deletes it. */
  lemma MaxIdKept(t: Table, r: nat)
    requires Backward(t)
    ensures MaxId(CompactTo(t, r)) <= MaxId(t)
    ensures r < MaxId(t) ==> MaxId(CompactTo(t, r)) == MaxId(t)
  {
    CompactedRows(t, r);
    VictimsBelow(t, r);
    if r < MaxId(t) {
      assert MaxId(t) in t.Keys;
      assert MaxId(t) in CompactTo(t, r).Keys;
    }
  }

  class Database {
    var rows: Table

    constructor (rows: Table)
      ensures this.rows == rows
    {
      this.rows := rows;
    }

    /** One transaction, called with the compact revision the caller believes in. It commits
        exactly when that belief is right and there is something left to compact below the
        retained tail; otherwise nothing changes and the caller learns the stored revision. */
    method Compact(compactRev: int, target: int, minRetain: nat)
      returns (compacted: nat, current: nat, status: Status)
      modifies this
      ensures current == MaxId(old(rows))
      ensures status == Committed <==>
                compactRev == CompactRev(old(rows)) && compactRev < target && compactRev < current - minRetain
      ensures status == Committed <==>
                compactRev == CompactRev(old(rows)) && compactRev < SafeCompactRev(target, current, minRetain)
      ensures status == Committed ==> compacted == SafeCompactRev(target, current, minRetain)
      // as far as asked, but not into the retained tail
      ensures status == Committed ==>
                && compacted <= target && compacted <= current - minRetain
                && (compacted == target || compacted == current - minRetain)
                && rows == CompactTo(old(rows), compacted)
      ensures status != Committed ==> rows == old(rows) && compacted == CompactRev(rows)
      // the stored revision only rises, and stays out of the retained tail
      ensures status == Committed && Records(old(rows)) ==>
                CompactRev(old(rows)) < CompactRev(rows) && CompactRev(rows) <= current - minRetain
      ensures status == Committed && Backward(old(rows)) && minRetain >= 1 ==> MaxId(rows) == MaxId(old(rows))
    {
      current := MaxId(rows);
      var dbCompactRev := CompactRev(rows);
      if compactRev != dbCompactRev {
        return dbCompactRev, current, ErrCompacted;
      }
      var safe := SafeCompactRev(target, current, minRetain);
      if safe <= dbCompactRev {
        return dbCompactRev, current, ErrCompacted;
      }
      ghost var before := rows;
      rows := CompactTo(rows, safe);
      if Records(before) { RecordsKept(before, safe); }
      if Backward(before) { MaxIdKept(before, safe); }
      return safe, current, Committed;
    }

    /** One batch of the loop, seen from the table the loop started with. */
    method Batch(done: nat, iter: int, minRetain: nat, ghost rows0: Table, ghost from: nat, ghost last: int,
                 ghost target: int)
      returns (compacted: nat, current: nat, status: Status)
      requires Backward(rows0) && Records(rows0)
      requires from == CompactRev(rows0) ==>
                Reached(rows0, from, last, minRetain, rows, done) && from <= last < iter <= target
      requires from != CompactRev(rows0) ==> rows == rows0 && done == from
      modifies this
      ensures from == CompactRev(rows0) ==>
                && Reached(rows0, from, if status == Committed then iter else target, minRetain, rows, compacted)
                && (status != Committed ==> compacted == done)
                && current == (if status == Committed then MaxId(rows0) else MaxId(rows))
      ensures from != CompactRev(rows0) ==>
                status != Committed && rows == rows0 && compacted == CompactRev(rows) && current == MaxId(rows)
      ensures status == Committed ==> current > 0 && compacted > 0
    {
      ghost var prior := rows;
      compacted, current, status := Compact(done, iter, minRetain);
      if from == CompactRev(rows0) {
        BatchStep(rows0, from, last, iter, target, minRetain, prior, done);
      }
    }

    /** One interval of the compactor. With no rival the batches add up to a single compaction
        to the safe revision; a stale argument compacts nothing and is replaced by the stored one. */
    method CompactIter(compactRev: nat, target: int, batch: nat, minRetain: nat)
      returns (compactedRev: nat, nextTarget: int)
      requires MIN_COMPACT_BATCH_SIZE <= batch
      requires Backward(rows) && Records(rows)
      modifies this
      ensures Backward(rows) && Records(rows)
      ensures Interval(old(rows), compactRev, target, minRetain, rows, compactedRev, nextTarget)
    {
      ghost var rows0 := rows;
      var iter: int := compactRev;
      var done: nat, currentRev: nat := compactRev, 0;
      while iter < target
        invariant compactRev <= iter && (if compactRev < target then iter <= target else iter == compactRev)
        invariant compactRev == CompactRev(rows0) ==> Reached(rows0, compactRev, iter, minRetain, rows, done)
        invariant compactRev != CompactRev(rows0) ==> rows == rows0 && iter == compactRev && done == compactRev
        invariant if iter == compactRev then currentRev == 0 && done == compactRev
                  else currentRev == MaxId(rows0) != 0 && done != 0
        decreases target - iter
      {
        ghost var last := iter;
        iter := iter + batch;
        if iter > target {
          iter := target;
        }
        var compacted, current, status := Batch(done, iter, minRetain, rows0, compactRev, last, target);
        if compacted != 0 && current != 0 {
          done, currentRev := compacted, current;
        }
        if status != Committed {
          break;
        }
      }
      compactedRev, nextTarget := compactRev, target;
      if currentRev > 0 {
        compactedRev, nextTarget := done, currentRev;
      }
      if compactRev == CompactRev(rows0) {
        OwnInterval(rows0, compactRev, target, minRetain, rows, done, currentRev);
      } else {
        StaleInterval(rows0, compactRev, target, minRetain, done, currentRev);
      }
    }
  }

  /** What one interval does to table t. Called with the stored revision it is a single compaction to the
      safe revision; called with another it changes nothing and learns the stored one. The next target
      is the current revision, as the last transaction saw it, or the old one while no compact revision is
      stored. */
  ghost predicate Interval(t: Table, from: nat, target: int, minRetain: nat, u: Table, compacted: nat, next: int) {
    && (if from == CompactRev(t) then
          if from < target && from < MaxId(t) - minRetain then
            && compacted <= target && compacted <= MaxId(t) - minRetain
            && (compacted == target || compacted == MaxId(t) - minRetain)
            && u == CompactTo(t, compacted) && CompactRev(u) == compacted
          else u == t && compacted == from
        else
          && u == t
          && (from < target && CompactRev(t) != 0 && MaxId(t) != 0 ==> compacted == CompactRev(t)))
    && (from >= target || CompactRev(u) == 0 ==> next == target)
    && (from < target && CompactRev(u) != 0 && MaxId(u) != 0 ==> next == MaxId(t) || next == MaxId(u))
    && (from < target && CompactRev(u) != 0 && MaxId(u) != 0 && minRetain >= 1 ==> next == MaxId(u))
  }

  lemma OwnInterval(t: Table, from: nat, target: int, minRetain: nat, u: Table, done: nat, current: nat)
    requires from == CompactRev(t) && Reached(t, from, if from < target then target else from, minRetain, u, done)
    requires current == 0 ==> done == from
    requires from >= target || done == 0 ==> current == 0
    requires from < target && done != 0 && MaxId(u) != 0 ==> 0 < current && (current == MaxId(t) || current == MaxId(u))
    ensures Interval(t, from, target, minRetain, u, if current > 0 then done else from,
                     if current > 0 then current else target)
  {
    if minRetain >= 1 && done != 0 {
      assert done < MaxId(t) || u == t;
    }
  }

  lemma StaleInterval(t: Table, from: nat, target: int, minRetain: nat, done: nat, current: nat)
    requires from != CompactRev(t)
    requires current == 0 ==> done == from
    requires from >= target || CompactRev(t) == 0 ==> current == 0
    requires from < target && CompactRev(t) != 0 && MaxId(t) != 0 ==> done == CompactRev(t) && current == MaxId(t)
    ensures Interval(t, from, target, minRetain, t, if current > 0 then done else from,
                     if current > 0 then current else target)
  {
  }

  /** Where the loop stands once every batch up to iter is done: at one compaction of the
      starting table to the safe revision for iter. */
  ghost predicate Reached(t: Table, from: nat, iter: int, minRetain: nat, u: Table, done: nat) {
    && Backward(u) && Records(u)
    && done == CompactRev(u) == Furthest(from, iter, MaxId(t), minRetain)
    && u == (if from < done then CompactTo(t, done) else t)
    && MaxId(u) <= MaxId(t) && (done < MaxId(t) ==> MaxId(u) == MaxId(t))
  }

  function Furthest(from: nat, iter: int, current: nat, minRetain: nat): nat {
    var s := SafeCompactRev(iter, current, minRetain);
    if from < s then s else from
  }

  /** The next batch either moves on, or stops where every later target would stop. */
  lemma BatchStep(t: Table, from: nat, last: int, iter: int, target: int, minRetain: nat, u: Table, done: nat)
    requires Backward(t) && Records(t)
    requires Reached(t, from, last, minRetain, u, done) && from <= last < iter <= target
    ensures var safe := SafeCompactRev(iter, MaxId(u), minRetain);
            if done < safe then Reached(t, from, iter, minRetain, CompactTo(u, safe), safe)
            else Reached(t, from, target, minRetain, u, done)
  {
    var safe := SafeCompactRev(iter, MaxId(u), minRetain);
    if done < safe {
      CompactStep(t, u, from, done, safe);
    }
  }

  /** One more committed batch, seen from the table the loop started with. */
  lemma CompactStep(t: Table, u: Table, from: nat, done: nat, r: nat)
    requires Backward(t) && Records(t)
    requires from <= done < r && u == if from < done then CompactTo(t, done) else t
    ensures CompactTo(u, r) == CompactTo(t, r)
    ensures Backward(CompactTo(t, r)) && Records(CompactTo(t, r)) && CompactRev(CompactTo(t, r)) == r
    ensures MaxId(CompactTo(t, r)) <= MaxId(t) && (r < MaxId(t) ==> MaxId(CompactTo(t, r)) == MaxId(t))
  {
    CompactCompose(t, done, r);
    CompactCompose(t, r, r);
    RecordsKept(t, r);
    MaxIdKept(t, r);
  }
}

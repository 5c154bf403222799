/** One compaction transaction as a function on the table, and the law that lets the
    compactor work in batches. */
module Compaction {
  import opened Kine

  /** Rows CompactSQL deletes: every row some row up to r links to as its previous version
      (the compact_rev_key row excepted), and every tombstone up to r. */
  function Victims(t: Table, r: nat): set<nat> {
    (set k | k in t && t[k].name != COMPACT_REV_KEY && t[k].prev != 0 && k <= r && t[k].prev in t :: t[k].prev)
    + (set k | k in t && t[k].deleted && k <= r)
  }

  /** DELETE, then record the new compact revision, in one transaction. */
  function CompactTo(t: Table, r: nat): Table {
    SetCompactRev(t - Victims(t, r), r)
  }

  /** Links point backwards: every row but the reserved one replaces an older row. */
  ghost predicate Backward(t: Table) {
    forall k | k in t && t[k].name != COMPACT_REV_KEY :: t[k].prev < k
  }

  function SafeCompactRev(target: int, current: nat, minRetain: nat): (r: nat) {
    var safe := current - minRetain;
    var safe := if target < safe then target else safe;
    if safe < 0 then 0 else safe
  }

  lemma VictimsBelow(t: Table, r: nat)
    requires Backward(t)
    ensures forall v | v in Victims(t, r) :: v in t && v <= r
  {
  }

  lemma CompactedRows(t: Table, r: nat)
    ensures CompactTo(t, r).Keys == t.Keys - Victims(t, r)
    ensures forall k | k in CompactTo(t, r) ::
              CompactTo(t, r)[k] == if t[k].name == COMPACT_REV_KEY then t[k].(prev := r) else t[k]
  {
  }

  /** What a second compaction still finds to delete. */
  lemma VictimsCompose(t: Table, r1: nat, r2: nat)
    requires Backward(t) && r1 <= r2
    ensures Victims(t, r2) == Victims(t, r1) + Victims(CompactTo(t, r1), r2)
  {
    var u := CompactTo(t, r1);
    CompactedRows(t, r1);
    VictimsBelow(t, r1);
    forall v | v in Victims(t, r2)
      ensures v in Victims(t, r1) + Victims(u, r2)
    {
      if v !in Victims(t, r1) {
        if !(t[v].deleted && v <= r2) {
          var k :| k in t && t[k].name != COMPACT_REV_KEY && t[k].prev != 0 && k <= r2 && t[k].prev == v;
          // the row that replaces v is still there: had it been deleted, it would lie at or below r1
          assert k in u;
          assert u[k].prev in u;
        }
      }
    }
    forall v | v in Victims(u, r2)
      ensures v in Victims(t, r2)
    {
      if !(u[v].deleted && v <= r2) {
        var k :| k in u && u[k].name != COMPACT_REV_KEY && u[k].prev != 0 && k <= r2 && u[k].prev == v;
        assert t[k].prev in t;
      } else {
        assert t[v].deleted;
      }
    }
  }

  lemma DeleteCompose(t: Table, v1: set<nat>, v2: set<nat>, r1: nat, r2: nat)
    ensures SetCompactRev(SetCompactRev(t - v1, r1) - v2, r2) == SetCompactRev(t - (v1 + v2), r2)
  {
    assert SetCompactRev(SetCompactRev(t - v1, r1) - v2, r2).Keys == SetCompactRev(t - (v1 + v2), r2).Keys;
  }

  /** Compacting to r1 and then to r2 is compacting to r2. */
  lemma CompactCompose(t: Table, r1: nat, r2: nat)
    requires Backward(t) && r1 <= r2
    ensures CompactTo(CompactTo(t, r1), r2) == CompactTo(t, r2)
    ensures Backward(CompactTo(t, r1))
  {
    DeleteCompose(t, Victims(t, r1), Victims(CompactTo(t, r1), r2), r1, r2);
    VictimsCompose(t, r1, r2);
    CompactedRows(t, r1);
  }
}

/** One pass of the poll loop over the rows it has just queried. */
module Poll {
  import opened Kine
  import opened Options

  /** SELECT id ... WHERE id > lo ORDER BY id ASC, up to hi. */
  function IdsAfter(t: Table, lo: nat, hi: nat): seq<nat>
    decreases hi
  {
    if hi <= lo then [] else IdsAfter(t, lo, hi - 1) + (if hi in t then [hi] else [])
  }

  lemma {:induction false} IdsAfterExact(t: Table, lo: nat, hi: nat)
    ensures forall k | 0 <= k < |IdsAfter(t, lo, hi)| ::
              lo < IdsAfter(t, lo, hi)[k] <= hi && IdsAfter(t, lo, hi)[k] in t
    ensures forall k, l | 0 <= k < l < |IdsAfter(t, lo, hi)| :: IdsAfter(t, lo, hi)[k] < IdsAfter(t, lo, hi)[l]
    ensures forall i | lo < i <= hi && i in t :: i in IdsAfter(t, lo, hi)
    decreases hi
  {
    if hi > lo {
      IdsAfterExact(t, lo, hi - 1);
      assert hi in t ==> IdsAfter(t, lo, hi)[|IdsAfter(t, lo, hi)| - 1] == hi;
    }
  }

  /** The events of a batch that were filled in; the poller leaves the others nil. */
  function NonNil(batch: seq<Option<Event>>): seq<Event> {
    if batch == [] then []
    else NonNil(batch[..|batch| - 1]) +
         (match batch[|batch| - 1] case None => [] case Some(e) => [e])
  }

  lemma {:induction false} NonNilPadding(batch: seq<Option<Event>>, i: nat)
    requires i <= |batch| && forall k | i <= k < |batch| :: batch[k] == None
    ensures NonNil(batch) == NonNil(batch[..i])
    decreases |batch|
  {
    if i < |batch| {
      NonNilPadding(batch[..|batch| - 1], i);
      assert batch[..|batch| - 1][..i] == batch[..i];
    } else {
      assert batch[..i] == batch;
    }
  }

  lemma NonNilStep(batch: seq<Option<Event>>, i: nat)
    requires i < |batch|
    ensures NonNil(batch[..i + 1]) == NonNil(batch[..i]) + (match batch[i] case None => [] case Some(e) => [e])
  {
    assert batch[..i + 1][..i] == batch[..i];
  }

  lemma {:induction false} SpanNone(t: Table, lo: nat, hi: nat)
    requires forall i | lo < i <= hi :: i !in t
    ensures Span(t, lo, hi) == []
    decreases hi
  {
    if hi > lo { SpanNone(t, lo, hi - 1); }
  }

  /** The next visible row after `from` is `id`. */
  lemma SpanNext(t: Table, lo: nat, from: nat, id: nat)
    requires lo <= from < id && id in t && forall i | from < i < id :: i !in t
    ensures Span(t, lo, id) == Span(t, lo, from) + (if IsFill(t[id].name) then [] else [Scan(id, t[id])])
  {
    SpanSplit(t, lo, from, id);
    SpanNone(t, from, id - 1);
  }

  /** What the loop does about a gap. */
  datatype Gap = NoGap | Remember(next: nat) | FillIt(next: nat)

  predicate CanSkipRevision(rev: nat, skip: nat, overdue: bool) {
    rev == skip && overdue
  }

  /** Between two neighbouring ids of a query result there is no visible row. */
  lemma NoIdBetween(t: Table, lo: nat, ids: seq<nat>, i: nat)
    requires ids <= IdsAfter(t, lo, MaxId(t)) && i < |ids|
    ensures forall x | (if i == 0 then lo else ids[i - 1]) < x < ids[i] :: x !in t
    ensures lo < ids[i] && ids[i] in t && (i > 0 ==> lo < ids[i - 1] < ids[i])
  {
    IdsAfterExact(t, lo, MaxId(t));
    var all := IdsAfter(t, lo, MaxId(t));
    forall x | (if i == 0 then lo else ids[i - 1]) < x < ids[i] ensures x !in t {
      assert x in t.Keys ==> x in all;
      assert forall k | 0 <= k < |all| :: all[k] != x by {
        forall k | 0 <= k < |all| ensures all[k] != x { }
      }
    }
  }

  /** After i of the queried rows: the position, and the events noted so far. */
  ghost predicate Scanned(t: Table, lo: nat, ids: seq<nat>, i: nat, rev: nat, noted: seq<Option<Event>>) {
    && i <= |ids| == |noted| && ids <= IdsAfter(t, lo, MaxId(t))
    && rev == (if i == 0 then lo else ids[i - 1]) && lo <= rev
    && (forall k | i <= k < |ids| :: noted[k] == None)
    && NonNil(noted[..i]) == Span(t, lo, rev)
  }

  function Note(t: Table, noted: seq<Option<Event>>, i: nat, id: nat): seq<Option<Event>>
    requires i < |noted| && id in t
  {
    if IsFill(t[id].name) then noted else noted[i := Some(Scan(id, t[id]))]
  }

  lemma ScanStep(t: Table, lo: nat, ids: seq<nat>, i: nat, rev: nat, noted: seq<Option<Event>>)
    requires Scanned(t, lo, ids, i, rev, noted) && i < |ids|
    ensures rev < ids[i] && ids[i] in t && Scanned(t, lo, ids, i + 1, ids[i], Note(t, noted, i, ids[i]))
  {
    NoIdBetween(t, lo, ids, i);
    SpanNext(t, lo, rev, ids[i]);
    var noted' := Note(t, noted, i, ids[i]);
    assert noted'[..i] == noted[..i];
    NonNilStep(noted', i);
  }

  /** The ids of one query: all above the revision, or the first few. */
  function Batch(t: Table, lo: nat, limit: int): seq<nat> {
    var ids := IdsAfter(t, lo, MaxId(t));
    if 0 < limit < |ids| then ids[..limit] else ids
  }

  /** The ids above the revision. */
  ghost function Above(t: Table, lo: nat): set<nat> {
    set i | i in t && lo < i
  }

  lemma {:induction false} IdsCount(t: Table, lo: nat, hi: nat)
    ensures |IdsAfter(t, lo, hi)| == |set i | i in t && lo < i <= hi|
    decreases hi
  {
    if hi <= lo {
      assert (set i | i in t && lo < i <= hi) == {};
    } else {
      IdsCount(t, lo, hi - 1);
      var below, upto := set i | i in t && lo < i <= hi - 1, set i | i in t && lo < i <= hi;
      assert upto == if hi in t then below + {hi} else below;
    }
  }

  /** A query returns the lowest ids above the revision, ascending: all of them, or as many as the limit says. */
  lemma BatchExact(t: Table, lo: nat, limit: int)
    ensures var n := |Above(t, lo)|; |Batch(t, lo, limit)| == if 0 < limit < n then limit else n
    ensures forall k | 0 <= k < |Batch(t, lo, limit)| :: Batch(t, lo, limit)[k] in Above(t, lo)
    ensures forall k, l | 0 <= k < l < |Batch(t, lo, limit)| :: Batch(t, lo, limit)[k] < Batch(t, lo, limit)[l]
    ensures forall i | i in Above(t, lo) ::
              i in Batch(t, lo, limit) || forall k | 0 <= k < |Batch(t, lo, limit)| :: Batch(t, lo, limit)[k] < i
  {
    var ids, batch := IdsAfter(t, lo, MaxId(t)), Batch(t, lo, limit);
    IdsAfterExact(t, lo, MaxId(t));
    IdsCount(t, lo, MaxId(t));
    assert forall i | i in t.Keys :: i <= MaxId(t);
    assert Above(t, lo) == set i | i in t && lo < i <= MaxId(t);
    forall i | i in Above(t, lo) ensures i in batch || forall k | 0 <= k < |batch| :: batch[k] < i {
      var j :| 0 <= j < |ids| && ids[j] == i;
      if j < |batch| { assert batch[j] == i; }
    }
  }

  function LastOf(ids: seq<nat>, lo: nat): nat {
    if ids == [] then lo else ids[|ids| - 1]
  }

  /** All ids from a to i are missing. */
  ghost predicate GapFrom(t: Table, a: nat, i: nat) {
    a <= i && forall x | a <= x <= i :: x !in t
  }

  /** The batch holds exactly the visible changes up to the new position, in order. The position
      advances to the last id queried, or stops before the first missing one, which is remembered the
      first time and filled the next. Only the gap that starts at `skip` may be passed, once overdue. */
  method ScanBatch(t: Table, pollRev: nat, limit: int, skip: nat, overdue: bool)
    returns (rev: nat, sequential: seq<Option<Event>>, gap: Gap)
    ensures pollRev <= rev && (rev == pollRev || rev in t)
    ensures NonNil(sequential) == Span(t, pollRev, rev)
    ensures forall i | pollRev < i <= rev && i !in t :: overdue && GapFrom(t, skip, i)
    ensures gap.NoGap? ==> rev == LastOf(Batch(t, pollRev, limit), pollRev)
    ensures gap.NoGap? && limit <= 0 ==> forall i | i in t :: i <= pollRev || i <= rev
    ensures !gap.NoGap? ==>
              && gap.next == rev + 1 && gap.next !in t && (exists j :: j in t && gap.next < j)
              && (gap.FillIt? <==> skip == gap.next)
  {
    var ids := Batch(t, pollRev, limit);
    rev, gap := pollRev, NoGap;
    sequential := seq(|ids|, _ => None);
    var i := 0;
    while i < |ids|
      invariant 0 <= i && Scanned(t, pollRev, ids, i, rev, sequential)
      invariant rev == pollRev || rev in t
      invariant forall k | pollRev < k <= rev && k !in t :: overdue && GapFrom(t, skip, k)
    {
      var next, id := rev + 1, ids[i];
      ScanStep(t, pollRev, ids, i, rev, sequential);
      NoIdBetween(t, pollRev, ids, i);
      if id != next && !CanSkipRevision(next, skip, overdue) {
        gap := if skip != next then Remember(next) else FillIt(next);
        break;
      }
      rev, sequential := id, Note(t, sequential, i, id);
      i := i + 1;
    }
    NonNilPadding(sequential, i);
    AllScanned(t, pollRev);
  }

  lemma AllScanned(t: Table, lo: nat)
    ensures forall x | x in t && lo < x :: x in IdsAfter(t, lo, MaxId(t))
    ensures var ids := IdsAfter(t, lo, MaxId(t));
            forall x | x in t && lo < x :: |ids| > 0 && x <= ids[|ids| - 1]
  {
    IdsAfterExact(t, lo, MaxId(t));
    forall x | x in t && lo < x ensures x in IdsAfter(t, lo, MaxId(t)) {
      assert x in t.Keys;
    }
  }
}

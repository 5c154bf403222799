/** One pass of the poll loop over the table is a step of the log machine, and so is the fill it ends with. */
module LogPass {
  import opened Kine
  import opened LogAnyRun
  import opened LogInvariant
  import opened LogMachine
  import opened Options
  import opened Poll

  /** The node after the pass has read up to rev. */
  ghost function AfterPass(s: State, k: nat, rev: nat): State
    requires k in s.nodes && (rev == s.nodes[k].pollRev || CanQuery(s, k, rev))
  {
    if rev == s.nodes[k].pollRev then s else DoQuery(s, k, rev)
  }

  /** Unless the skip fallback is due, a pass that moves on is a query step: it reads an unbroken run of rows, and
      its batch is what the step hands over. A gap to be filled is the one right after it, at an id in use before. */
  method Pass(t: Table, pollRev: nat, limit: int, skip: nat, ghost s: State, ghost k: nat)
    returns (rev: nat, sequential: seq<Option<Event>>, gap: Gap)
    requires Loose(s) && Polls(s, k) && s.nodes[k].pending.None? && t == s.rows && pollRev == s.nodes[k].pollRev
    ensures rev == pollRev || CanQuery(s, k, rev)
    ensures rev != pollRev ==> AfterPass(s, k, rev).nodes[k].pending == Some(Pending(rev, NonNil(sequential), false))
    ensures gap.FillIt? ==>
              var n := AfterPass(s, k, rev).nodes[k];
              gap.next == Passed(n) + 1 && gap.next == skip && gap.next !in s.rows && gap.next < s.next
    // with rows left to read, a pass moves on or finds a gap
    ensures (exists i :: i in t && pollRev < i) ==> rev != pollRev || !gap.NoGap?
  {
    rev, sequential, gap := ScanBatch(t, pollRev, limit, skip, false);
    BatchExact(t, pollRev, limit);
    if i :| i in t && pollRev < i { assert i in Above(t, pollRev); }
    MaxIdBounds(s);
    assert forall i | i in s.rows :: i < s.next;
  }
}

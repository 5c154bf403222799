/** A watch on the in-memory store: passes over the log, with other clients at work in between. */
module MemoryWatch {
  import opened Memory
  import opened MemoryHistory

  /** The entries after revision s. */
  ghost function From(h: seq<Entry>, s: nat): seq<Entry> {
    if s <= |h| then h[s..] else []
  }

  lemma {:induction false} EventsAppend(a: seq<Entry>, b: seq<Entry>, key: string, end: string)
    ensures EventsOf(a + b, key, end) == EventsOf(a, key, end) + EventsOf(b, key, end)
    decreases |b|
  {
    if b == [] {
      assert a + b == a;
    } else {
      assert (a + b)[..|a + b| - 1] == a + b[..|b| - 1];
      EventsAppend(a, b[..|b| - 1], key, end);
    }
  }

  /** What a watcher that has seen the history g, and then a longer one h, has read in all. */
  lemma TwoPasses(g: seq<Entry>, h: seq<Entry>, s: nat, key: string, end: string)
    requires g <= h
    ensures EventsOf(From(h, s), key, end) ==
              EventsOf(From(g, s), key, end) + EventsOf(From(h, if s < |g| then |g| else s), key, end)
  {
    var seen := if s < |g| then |g| else s;
    assert From(h, s) == From(g, s) + From(h, seen);
    EventsAppend(From(g, s), From(h, seen), key, end);
  }

  // ----- passes -----

  /** One pass: it has seen revision `seen` before, reads the entries `from` to `to` of the history,
      and the log starts after revision `cut` at that moment, `compactions` compactions in. */
  datatype Pass = Pass(seen: nat, from: nat, to: nat, cut: nat, compactions: nat)

  /** A pass skips nothing that is kept and new to it, and repeats at most one entry per compaction. */
  ghost predicate PassOk(p: Pass) {
    && p.from <= p.to && p.cut <= p.to
    && p.from <= (if p.seen < p.cut then p.cut else p.seen)
    && (if p.seen < p.to then p.seen else p.to) <= p.from + p.compactions
  }

  /** Where a pass takes the watcher. */
  ghost function Seen(p: Pass): nat {
    if p.from < p.to then p.to else p.seen
  }

  ghost function Slice(h: seq<Entry>, p: Pass): seq<Entry> {
    if p.from <= p.to <= |h| then h[p.from..p.to] else []
  }

  /** The passes of a watch, from its start on. */
  datatype Trail = Start(revision: nat) | Then(before: Trail, pass: Pass)

  ghost function First(t: Trail): nat {
    match t case Start(revision) => revision case Then(before, _) => First(before)
  }

  ghost function Length(t: Trail): nat {
    match t case Start(_) => 0 case Then(before, _) => Length(before) + 1
  }

  /** What the watcher has seen after its passes. */
  ghost function After(t: Trail): nat {
    match t case Start(revision) => revision case Then(_, pass) => Seen(pass)
  }

  /** The matching entries the passes read of a history. */
  ghost function EventsOfTrail(h: seq<Entry>, t: Trail, key: string, end: string): seq<Event> {
    match t
    case Start(_) => []
    case Then(before, pass) => EventsOfTrail(h, before, key, end) + EventsOf(Slice(h, pass), key, end)
  }

  /** Every pass is in order, starts where the one before it ended, and reads no less of the history. */
  ghost predicate Series(t: Trail, n: nat) {
    match t
    case Start(_) => true
    case Then(before, pass) => PassOk(pass) && pass.to <= n && pass.seen == After(before) && Series(before, pass.to)
  }

  lemma {:induction false} TrailExtends(g: seq<Entry>, h: seq<Entry>, t: Trail, key: string, end: string)
    requires g <= h && Series(t, |g|)
    ensures EventsOfTrail(h, t, key, end) == EventsOfTrail(g, t, key, end)
    decreases t
  {
    if t.Then? {
      SeriesLater(t.before, t.pass.to, |g|);
      TrailExtends(g, h, t.before, key, end);
      assert Slice(h, t.pass) == Slice(g, t.pass);
    }
  }

  lemma SeriesLater(t: Trail, n: nat, n': nat)
    requires Series(t, n) && n <= n'
    ensures Series(t, n')
  {
  }

  /** No pass has met a compaction, and the start was not compacted. */
  ghost predicate Calm(t: Trail, start: nat) {
    match t
    case Start(revision) => revision == start
    case Then(before, pass) => Calm(before, start) && pass.compactions == 0 && pass.cut <= start
  }

  lemma CalmPass(h: seq<Entry>, p: Pass)
    requires PassOk(p) && p.compactions == 0 && p.cut <= p.seen && p.to == |h|
    ensures Slice(h, p) == From(h, p.seen) && Seen(p) == if p.seen < |h| then |h| else p.seen
  {
  }

  /** Without compactions, the passes read everything after the start exactly once. */
  lemma {:induction false} ExactlyOnce(h: seq<Entry>, t: Trail, start: nat, key: string, end: string)
    requires Series(t, |h|) && t.Then? && t.pass.to == |h| && Calm(t, start)
    ensures EventsOfTrail(h, t, key, end) == EventsOf(From(h, start), key, end)
    ensures After(t) == if start < |h| then |h| else start
    decreases t
  {
    if t.before.Start? {
      CalmPass(h, t.pass);
      assert EventsOfTrail(h, t.before, key, end) == [];
    } else {
      var g := h[..t.before.pass.to];
      ExactlyOnce(g, t.before, start, key, end);
      CalmPass(h, t.pass);
      TrailExtends(g, h, t.before, key, end);
      TwoPasses(g, h, start, key, end);
    }
  }

  // ----- with compactions -----

  /** The passes have met at most so many compactions, and no log that starts after a later revision. */
  ghost predicate Bounded(t: Trail, cut: int, compactions: nat) {
    match t
    case Start(_) => true
    case Then(before, pass) => pass.cut <= cut && pass.compactions <= compactions && Bounded(before, cut, compactions)
  }

  lemma {:induction false} BoundedLater(t: Trail, cut: int, compactions: nat, cut': int, compactions': nat)
    requires Bounded(t, cut, compactions) && cut <= cut' && compactions <= compactions'
    ensures Bounded(t, cut', compactions')
    decreases t
  {
    if t.Then? { BoundedLater(t.before, cut, compactions, cut', compactions'); }
  }

  lemma {:induction false} EventIn(entries: seq<Entry>, i: nat, key: string, end: string)
    requires i < |entries| && Matches(key, end, entries[i].key)
    ensures EventOf(entries[i]) in EventsOf(entries, key, end)
    decreases |entries|
  {
    if i < |entries| - 1 { EventIn(entries[..|entries| - 1], i, key, end); }
  }

  lemma {:induction false} EventFrom(entries: seq<Entry>, ev: Event, key: string, end: string) returns (i: nat)
    requires ev in EventsOf(entries, key, end)
    ensures i < |entries| && Matches(key, end, entries[i].key) && ev == EventOf(entries[i])
    decreases |entries|
  {
    var n := |entries| - 1;
    if ev in EventsOf(entries[..n], key, end) { i := EventFrom(entries[..n], ev, key, end); } else { i := n; }
  }

  lemma SliceIn(h: seq<Entry>, p: Pass, i: nat, key: string, end: string)
    requires p.from <= i < p.to <= |h| && Matches(key, end, h[i].key)
    ensures EventOf(h[i]) in EventsOf(Slice(h, p), key, end)
  {
    EventIn(Slice(h, p), i - p.from, key, end);
  }

  /** What the watcher has seen and was never cut from the log has been read. */
  lemma {:induction false} SeenIsRead(h: seq<Entry>, t: Trail, cut: int, compactions: nat, i: nat, key: string,
                                      end: string)
    requires Series(t, |h|) && Bounded(t, cut, compactions) && i < |h| && Matches(key, end, h[i].key)
    requires First(t) <= i < After(t) && cut <= i
    ensures EventOf(h[i]) in EventsOfTrail(h, t, key, end)
    decreases t
  {
    if t.Then? {
      if t.pass.from <= i < t.pass.to {
        SliceIn(h, t.pass, i, key, end);
      } else {
        SeriesLater(t.before, t.pass.to, |h|);
        SeenIsRead(h, t.before, cut, compactions, i, key, end);
      }
    }
  }

  /** So the passes skip nothing that is still in the log at the end. */
  lemma NothingSkipped(h: seq<Entry>, t: Trail, cut: int, compactions: nat, i: nat, key: string, end: string)
    requires Series(t, |h|) && Bounded(t, cut, compactions) && t.Then? && t.pass.to == |h|
    requires First(t) <= i < |h| && cut <= i && Matches(key, end, h[i].key)
    ensures EventOf(h[i]) in EventsOfTrail(h, t, key, end)
  {
    if t.pass.from <= i {
      SliceIn(h, t.pass, i, key, end);
    } else {
      SeriesLater(t.before, t.pass.to, |h|);
      SeenIsRead(h, t.before, cut, compactions, i, key, end);
    }
  }

  /** All passes have read a history of at least this length. */
  ghost predicate AtLeast(t: Trail, n: nat) {
    match t case Start(_) => true case Then(before, pass) => n <= pass.to && AtLeast(before, n)
  }

  /** A watcher does not fall back behind its start, unless that lies beyond the history. */
  lemma {:induction false} NeverBack(t: Trail, n: nat)
    requires AtLeast(t, n) && (t.Then? ==> Series(t, t.pass.to))
    ensures First(t) <= After(t) || n <= After(t)
    decreases t
  {
    if t.Then? { NeverBack(t.before, n); }
  }

  /** Nothing is read from further back than there were compactions. */
  lemma {:induction false} NothingOlder(h: seq<Entry>, t: Trail, cut: int, compactions: nat, n: nat, ev: Event,
                                        key: string, end: string)
    returns (i: nat)
    requires Series(t, |h|) && Bounded(t, cut, compactions) && AtLeast(t, n) && ev in EventsOfTrail(h, t, key, end)
    ensures i < |h| && Matches(key, end, h[i].key) && ev == EventOf(h[i])
    ensures First(t) <= i + compactions || n <= i + compactions
    decreases t
  {
    SeriesLater(t.before, t.pass.to, |h|);
    if ev in EventsOfTrail(h, t.before, key, end) {
      i := NothingOlder(h, t.before, cut, compactions, n, ev, key, end);
    } else {
      var j := EventFrom(Slice(h, t.pass), ev, key, end);
      i := t.pass.from + j;
      NeverBack(t.before, n);
    }
  }

  /** The pass a watcher that has seen a revision makes over the store as it is. */
  ghost function PassOver(m: Memory, seen: nat): Pass
    reads m
    requires |m.log| <= |m.history|
  {
    Pass(seen, |m.history| - |m.log| + m.LogIndexAfter(seen), |m.history|, |m.history| - |m.log|, m.compactions)
  }

  lemma PassIsOk(m: Memory, seen: nat)
    requires m.Valid()
    ensures |m.log| <= |m.history| && PassOk(PassOver(m, seen))
    ensures m.log[m.LogIndexAfter(seen)..] == m.history[PassOver(m, seen).from..PassOver(m, seen).to]
  {
  }

  // ----- the watch -----

  lemma ReportsAppend(a: seq<Event>, p: seq<Event>, b: seq<Event>, q: seq<Event>)
    requires Reports(a, p) && Reports(b, q)
    ensures Reports(a + b, p + q)
  {
  }

  ghost predicate PrevsOk(events: seq<Event>, h: seq<Entry>, c: nat) {
    forall i | 0 <= i < |events| :: PrevOk(events[i], h, c)
  }

  lemma PrevsLater(events: seq<Event>, batch: seq<Event>, h: seq<Entry>, h': seq<Entry>, c: nat, c': nat)
    requires PrevsOk(events, h, c) && h <= h' && c <= c' && PrevsOk(batch, h', c')
    ensures PrevsOk(events + batch, h', c')
  {
    forall i | 0 <= i < |events| ensures PrevOk(events[i], h', c') {
      assert PrevOk(events[i], h, c);
    }
  }

  /** One pass, with what it is in the series. */
  method OnePass(m: Memory, key: string, end: string, lastSeen: nat)
    returns (batch: seq<Event>, seen: nat, ghost p: Pass)
    requires m.Valid()
    ensures PassOk(p) && p.seen == lastSeen && p.to == |m.history| && seen == Seen(p)
    ensures p.compactions == m.compactions && p.cut == m.compactRevision - m.compactions
    ensures Reports(batch, EventsOf(Slice(m.history, p), key, end)) && PrevsOk(batch, m.history, m.compactRevision)
  {
    PassIsOk(m, lastSeen);
    p := PassOver(m, lastSeen);
    batch, seen := m.WatchPass(key, end, lastSeen);
  }

  /** What the watch has delivered after some passes over a history. */
  ghost predicate Delivered(out: seq<Event>, h: seq<Entry>, t: Trail, key: string, end: string) {
    Series(t, |h|) && Reports(out, EventsOfTrail(h, t, key, end))
  }

  lemma NextPass(out: seq<Event>, batch: seq<Event>, g: seq<Entry>, h: seq<Entry>, t: Trail, p: Pass, key: string,
                 end: string)
    requires Delivered(out, g, t, key, end) && g <= h && PassOk(p) && p.to == |h|
    requires p.seen == After(t) && Reports(batch, EventsOf(Slice(h, p), key, end))
    ensures Delivered(out + batch, h, Then(t, p), key, end)
  {
    SeriesLater(t, |g|, |h|);
    TrailExtends(g, h, t, key, end);
    ReportsAppend(out, EventsOfTrail(h, t, key, end), batch, EventsOf(Slice(h, p), key, end));
  }

  /** How the passes made so far stand to the store. */
  ghost predicate Stands(m: Memory, t: Trail, out: seq<Event>)
    reads m
  {
    && t.Then? && t.pass.to == |m.history| && Bounded(t, m.compactRevision - m.compactions, m.compactions)
    && PrevsOk(out, m.history, m.compactRevision)
  }

  /** One round: other clients, then a pass. */
  method Round(m: Memory, key: string, end: string, ops: seq<Op>, out: seq<Event>, lastSeen: nat, ghost t: Trail)
    returns (out': seq<Event>, seen: nat, ghost p: Pass)
    requires m.Valid() && Delivered(out, m.history, t, key, end) && lastSeen == After(t) && Stands(m, t, out)
    modifies m, set e | e in m.history
    ensures m.Valid() && old(m.history) <= m.history && forall e | e in m.history :: e in old(m.history) || fresh(e)
    ensures Delivered(out', m.history, Then(t, p), key, end) && seen == Seen(p) && Stands(m, Then(t, p), out')
    ensures p.compactions == m.compactions && p.cut == m.compactRevision - m.compactions
    ensures old(m.compactions) <= m.compactions
    ensures m.compactions == old(m.compactions) ==> m.compactRevision == old(m.compactRevision)
  {
    ghost var g, c, k := m.history, m.compactRevision, m.compactions;
    m.Interfere(ops);
    var batch;
    batch, seen, p := OnePass(m, key, end, lastSeen);
    NextPass(out, batch, g, m.history, t, p, key, end);
    BoundedLater(t, c - k, k, m.compactRevision - m.compactions, m.compactions);
    PrevsLater(out, batch, g, m.history, c, m.compactRevision);
    out' := out + batch;
  }

  /** The event is among those delivered, its previous version aside. */
  ghost predicate Has(out: seq<Event>, ev: Event) {
    exists i :: 0 <= i < |out| && Strip(out[i]) == ev
  }

  lemma ReportsHas(out: seq<Event>, plain: seq<Event>, ev: Event)
    requires Reports(out, plain) && ev in plain
    ensures Has(out, ev)
  {
    var i :| 0 <= i < |plain| && plain[i] == ev;
    assert Strip(out[i]) == ev;
  }

  /** Every matching entry after the start that is still in the log has been delivered. */
  ghost predicate NoneSkipped(m: Memory, out: seq<Event>, start: nat, key: string, end: string)
    reads m
  {
    forall e | e in m.log && start < e.revision && Matches(key, end, e.key) :: Has(out, EventOf(e))
  }

  /** The event is that of a matching entry after a revision. */
  ghost predicate Recent(h: seq<Entry>, ev: Event, after: int, key: string, end: string) {
    exists e :: e in h && Matches(key, end, e.key) && ev == EventOf(e) && after < e.revision
  }

  /** What has been delivered are matching entries of the history, and none from further back than
      there were compactions. */
  ghost predicate OnlyRecent(m: Memory, out: seq<Event>, start: nat, key: string, end: string)
    reads m
  {
    forall i | 0 <= i < |out| :: Recent(m.history, Strip(out[i]), start - m.compactions, key, end)
  }

  lemma AllDelivered(m: Memory, t: Trail, out: seq<Event>, key: string, end: string)
    requires m.Valid() && Stands(m, t, out) && Delivered(out, m.history, t, key, end)
    ensures NoneSkipped(m, out, First(t), key, end)
  {
    var h := m.history;
    forall e | e in m.log && First(t) < e.revision && Matches(key, end, e.key) ensures Has(out, EventOf(e)) {
      var j :| 0 <= j < |m.log| && m.log[j] == e;
      var i := |h| - |m.log| + j;
      assert h[i] == e && e.revision == i + 1;
      NothingSkipped(h, t, m.compactRevision - m.compactions, m.compactions, i, key, end);
      ReportsHas(out, EventsOfTrail(h, t, key, end), EventOf(e));
    }
  }

  lemma OnlyDelivered(m: Memory, t: Trail, out: seq<Event>, n: nat, key: string, end: string)
    requires m.Valid() && Stands(m, t, out) && Delivered(out, m.history, t, key, end) && AtLeast(t, n)
    ensures OnlyRecent(m, out, if First(t) < n then First(t) else n, key, end)
  {
    var h, start := m.history, if First(t) < n then First(t) else n;
    forall j | 0 <= j < |out| ensures Recent(h, Strip(out[j]), start - m.compactions, key, end) {
      assert Strip(out[j]) == EventsOfTrail(h, t, key, end)[j];
      var i := NothingOlder(h, t, m.compactRevision - m.compactions, m.compactions, n, Strip(out[j]), key, end);
      assert h[i] in h && h[i].revision == i + 1;
    }
  }

  /** Whatever other clients do between the passes, compactions included: every matching entry
      after the start that is still in the log at the end has been delivered. Nothing has been
      delivered from further back than there were compactions, and no pass repeats more entries than
      that. A previous version above the compact revision is given in full. While nothing is compacted
      the watch delivers each matching entry after its start revision exactly once and in order. */
  method Watch(m: Memory, key: string, end: string, startRevision: int, rounds: seq<seq<Op>>)
    returns (out: seq<Event>, compacted: bool, ghost t: Trail)
    requires m.Valid()
    modifies m, set e | e in m.history
    ensures m.Valid() && old(m.history) <= m.history
    ensures compacted <==> 0 < startRevision <= old(m.compactRevision)
    ensures compacted ==> out == []
    ensures !compacted ==>
              var start := if startRevision > 0 then startRevision - 1 else old(m.currentRevision);
              && First(t) == start && Length(t) == |rounds| + 1 && Delivered(out, m.history, t, key, end) &&
                  Stands(m, t, out)
              && NoneSkipped(m, out, start, key, end)
              && OnlyRecent(m, out, if start < old(m.currentRevision) then start else old(m.currentRevision), key, end)
              && (m.compactions == 0 ==> Reports(out, EventsOf(From(m.history, start), key, end)))
  {
    var rev := m.currentRevision;
    if startRevision > 0 && startRevision <= m.compactRevision {
      return [], true, Start(0);
    }
    var lastSeen: int := startRevision - 1;
    if lastSeen < 0 {
      lastSeen := rev;
    }
    ghost var start: nat, p := lastSeen, Pass(0, 0, 0, 0, 0);
    var batch;
    batch, lastSeen, p := OnePass(m, key, end, lastSeen);
    t := Then(Start(start), p);
    NextPass([], batch, m.history, m.history, Start(start), p, key, end);
    out := batch;
    assert [] + batch == batch;
    for i := 0 to |rounds|
      invariant m.Valid() && old(m.history) <= m.history
      invariant forall e | e in m.history :: e in old(m.history) || fresh(e)
      invariant Stands(m, t, out) && lastSeen == After(t) && First(t) == start && Length(t) == i + 1 && AtLeast(t, rev)
      invariant Delivered(out, m.history, t, key, end)
      invariant m.compactions == 0 ==> m.compactRevision <= start && Calm(t, start)
    {
      out, lastSeen, p := Round(m, key, end, rounds[i], out, lastSeen, t);
      t := Then(t, p);
    }
    compacted := false;
    Conclude(m, t, out, rev, key, end);
  }

  lemma Conclude(m: Memory, t: Trail, out: seq<Event>, n: nat, key: string, end: string)
    requires m.Valid() && Stands(m, t, out) && Delivered(out, m.history, t, key, end) && AtLeast(t, n)
    requires m.compactions == 0 ==> Calm(t, First(t))
    ensures NoneSkipped(m, out, First(t), key, end)
    ensures OnlyRecent(m, out, if First(t) < n then First(t) else n, key, end)
    ensures m.compactions == 0 ==> Reports(out, EventsOf(From(m.history, First(t)), key, end))
  {
    AllDelivered(m, t, out, key, end);
    OnlyDelivered(m, t, out, n, key, end);
    if m.compactions == 0 {
      ExactlyOnce(m.history, t, First(t), key, end);
    }
  }
}

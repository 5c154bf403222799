/** A watch joins two sources: the rows already in the table after its start revision, and the
    poller's batches from the moment of its subscription. */
module WatchSplice {
  import opened Text
  import opened Kine
  import opened Options
  import opened Poll

  // ----- the two range tests -----

  /** The rows the After query selects. */
  predicate Selects(key: string, end: string, name: string) {
    if key == "" then true
    else if end == "" then name == key
    else !Less(name, key) && Less(name, end)
  }

  /** Event.InRange, applied to live events. */
  predicate InRange(key: string, end: string, name: string) {
    key == "" || (end != "" && !Less(name, key) && Less(name, end)) || name == key
  }

  /** The query and the live test agree on every name exactly when the range is not inverted. */
  lemma RangesAgree(key: string, end: string)
    ensures (forall name :: Selects(key, end, name) == InRange(key, end, name)) <==> WellFormed(key, end)
  {
    if WellFormed(key, end) {
      forall name ensures Selects(key, end, name) == InRange(key, end, name) { NameAgrees(key, end, name); }
    } else {
      assert Selects(key, end, key) != InRange(key, end, key);
    }
  }

  lemma NameAgrees(key: string, end: string, name: string)
    requires WellFormed(key, end)
    ensures Selects(key, end, name) == InRange(key, end, name)
  {
    LessTotal(key, key);
  }

  predicate WellFormed(key: string, end: string) {
    key == "" || end == "" || Less(key, end)
  }

  /** The start revision of the query: the watched revision itself is included, but not revision 1. */
  function Start(revision: nat): nat {
    if revision > 1 then revision - 1 else revision
  }

  // ----- sequences of events -----

  /** The After query over (lo, hi]; unlike the poller it returns fills too. */
  function Select(t: Table, key: string, end: string, lo: nat, hi: nat): seq<Event>
    decreases hi
  {
    if hi <= lo then []
    else Select(t, key, end, lo, hi - 1) +
         (if hi in t && Selects(key, end, t[hi].name) then [Scan(hi, t[hi])] else [])
  }

  function Keep(s: seq<Event>, key: string, end: string): seq<Event> {
    if s == [] then []
    else Keep(s[..|s| - 1], key, end) + (if InRange(key, end, s[|s| - 1].kv.key) then [s[|s| - 1]] else [])
  }

  function NoFills(s: seq<Event>): seq<Event> {
    if s == [] then []
    else NoFills(s[..|s| - 1]) + (if IsFill(s[|s| - 1].kv.key) then [] else [s[|s| - 1]])
  }

  function Newer(s: seq<Event>, rev: nat): seq<Event> {
    if s == [] then []
    else Newer(s[..|s| - 1], rev) + (if s[|s| - 1].kv.modRev <= rev then [] else [s[|s| - 1]])
  }

  /** The changes a watch of the range should see over (lo, hi]. */
  function Expected(t: Table, key: string, end: string, lo: nat, hi: nat): seq<Event> {
    NoFills(Select(t, key, end, lo, hi))
  }

  /** What a watch promises: a watch of revision 2 or later the changes from that revision on, one of 0 or 1 the
      changes after it. */
  lemma StartExact(t: Table, key: string, end: string, revision: nat, q: nat, i: nat)
    requires i in t && i <= q && Selects(key, end, t[i].name) && !IsFill(t[i].name)
    ensures Scan(i, t[i]) in Expected(t, key, end, Start(revision), q) <==>
              if revision >= 2 then revision <= i else revision < i
  {
    ExpectedRows(t, key, end, Start(revision), q);
  }

  ghost predicate Ascending(s: seq<Event>) {
    forall i, j | 0 <= i < j < |s| :: s[i].kv.modRev < s[j].kv.modRev
  }

  lemma {:induction false} NoFillsAppend(a: seq<Event>, b: seq<Event>)
    ensures NoFills(a + b) == NoFills(a) + NoFills(b)
    decreases |b|
  {
    if b == [] {
      assert a + b == a;
    } else {
      assert (a + b)[..|a + b| - 1] == a + b[..|b| - 1];
      NoFillsAppend(a, b[..|b| - 1]);
    }
  }

  lemma {:induction false} KeepAppend(a: seq<Event>, b: seq<Event>, key: string, end: string)
    ensures Keep(a + b, key, end) == Keep(a, key, end) + Keep(b, key, end)
    decreases |b|
  {
    if b == [] {
      assert a + b == a;
    } else {
      assert (a + b)[..|a + b| - 1] == a + b[..|b| - 1];
      KeepAppend(a, b[..|b| - 1], key, end);
    }
  }

  lemma {:induction false} NewerAppend(a: seq<Event>, b: seq<Event>, rev: nat)
    ensures Newer(a + b, rev) == Newer(a, rev) + Newer(b, rev)
    decreases |b|
  {
    if b == [] {
      assert a + b == a;
    } else {
      assert (a + b)[..|a + b| - 1] == a + b[..|b| - 1];
      NewerAppend(a, b[..|b| - 1], rev);
    }
  }

  /** What id hi adds to the expected changes. */
  function ExpectedAt(t: Table, key: string, end: string, hi: nat): seq<Event> {
    if hi in t && Selects(key, end, t[hi].name) && !IsFill(t[hi].name) then [Scan(hi, t[hi])] else []
  }

  lemma ExpectedStep(t: Table, key: string, end: string, lo: nat, hi: nat)
    requires lo < hi
    ensures Expected(t, key, end, lo, hi) == Expected(t, key, end, lo, hi - 1) + ExpectedAt(t, key, end, hi)
  {
    var last := if hi in t && Selects(key, end, t[hi].name) then [Scan(hi, t[hi])] else [];
    NoFillsAppend(Select(t, key, end, lo, hi - 1), last);
    assert last != [] ==> last[..0] == [] && NoFills(last[..0]) == [];
  }

  lemma {:induction false} ExpectedSplit(t: Table, key: string, end: string, lo: nat, mid: nat, hi: nat)
    requires lo <= mid <= hi
    ensures Expected(t, key, end, lo, hi) == Expected(t, key, end, lo, mid) + Expected(t, key, end, mid, hi)
    decreases hi
  {
    if mid < hi {
      ExpectedStep(t, key, end, lo, hi);
      ExpectedStep(t, key, end, mid, hi);
      ExpectedSplit(t, key, end, lo, mid, hi - 1);
    }
  }

  lemma KeepAt(s: seq<Event>, t: Table, key: string, end: string, hi: nat)
    requires WellFormed(key, end)
    ensures Keep(s + SpanAt(t, hi), key, end) == Keep(s, key, end) + ExpectedAt(t, key, end, hi)
  {
    if hi in t && !IsFill(t[hi].name) {
      NameAgrees(key, end, t[hi].name);
      KeepPush(s, Scan(hi, t[hi]), key, end);
    } else {
      assert s + [] == s && Keep(s, key, end) + [] == Keep(s, key, end);
    }
  }

  /** What the poller sends over (lo, hi], kept to the range, is what is expected there. */
  lemma {:induction false} LiveIsExpected(t: Table, key: string, end: string, lo: nat, hi: nat)
    requires WellFormed(key, end)
    ensures Keep(Span(t, lo, hi), key, end) == Expected(t, key, end, lo, hi)
    decreases hi
  {
    if lo < hi {
      LiveIsExpected(t, key, end, lo, hi - 1);
      ExpectedStep(t, key, end, lo, hi);
      KeepAt(Span(t, lo, hi - 1), t, key, end, hi);
    }
  }

  lemma {:induction false} NewerExpected(t: Table, key: string, end: string, lo: nat, hi: nat, rev: nat)
    ensures Newer(Expected(t, key, end, lo, hi), rev) == Expected(t, key, end, if lo < rev then rev else lo, hi)
    decreases hi
  {
    if lo < hi {
      NewerExpected(t, key, end, lo, hi - 1, rev);
      ExpectedStep(t, key, end, lo, hi);
      var last := ExpectedAt(t, key, end, hi);
      NewerAppend(Expected(t, key, end, lo, hi - 1), last, rev);
      assert last != [] ==> last[..0] == [] && Newer(last[..0], rev) == [];
      if rev < hi { ExpectedStep(t, key, end, if lo < rev then rev else lo, hi); }
    }
  }

  /** Every event is that of a wanted row of the interval. */
  ghost predicate OnlyWanted(s: seq<Event>, t: Table, key: string, end: string, lo: nat, hi: nat) {
    forall k | 0 <= k < |s| ::
      var i := s[k].kv.modRev; lo < i <= hi && i in t && Wanted(t, key, end, i) && s[k] == Scan(i, t[i])
  }

  /** Every wanted row of the interval has its event. */
  ghost predicate AllWanted(s: seq<Event>, t: Table, key: string, end: string, lo: nat, hi: nat) {
    forall i | lo < i <= hi && i in t && Wanted(t, key, end, i) :: Scan(i, t[i]) in s
  }

  lemma OnlyWantedNext(s: seq<Event>, t: Table, key: string, end: string, lo: nat, hi: nat)
    requires lo < hi && OnlyWanted(s, t, key, end, lo, hi - 1)
    ensures OnlyWanted(s + ExpectedAt(t, key, end, hi), t, key, end, lo, hi)
  {
  }

  lemma AllWantedNext(s: seq<Event>, t: Table, key: string, end: string, lo: nat, hi: nat)
    requires lo < hi && AllWanted(s, t, key, end, lo, hi - 1)
    ensures AllWanted(s + ExpectedAt(t, key, end, hi), t, key, end, lo, hi)
  {
    var s' := s + ExpectedAt(t, key, end, hi);
    forall i | lo < i <= hi && i in t && Wanted(t, key, end, i) ensures Scan(i, t[i]) in s' {
      if i < hi { assert Scan(i, t[i]) in s; } else { assert s'[|s|] == Scan(hi, t[hi]); }
    }
  }

  /** Expected is determined by, and determines, the wanted rows. */
  lemma {:induction false} ExpectedRows(t: Table, key: string, end: string, lo: nat, hi: nat)
    ensures OnlyWanted(Expected(t, key, end, lo, hi), t, key, end, lo, hi)
    ensures AllWanted(Expected(t, key, end, lo, hi), t, key, end, lo, hi)
    decreases hi
  {
    if lo < hi {
      ExpectedRows(t, key, end, lo, hi - 1);
      var s := Expected(t, key, end, lo, hi - 1);
      OnlyWantedNext(s, t, key, end, lo, hi);
      AllWantedNext(s, t, key, end, lo, hi);
      ExpectedStep(t, key, end, lo, hi);
    }
  }

  ghost predicate Wanted(t: Table, key: string, end: string, i: nat)
    requires i in t
  {
    Selects(key, end, t[i].name) && !IsFill(t[i].name)
  }

  /** Every wanted row of t in the interval is there in a, and not replaced by a fill. */
  ghost predicate SameWanted(a: Table, t: Table, key: string, end: string, lo: nat, hi: nat) {
    forall i | lo < i <= hi && i in t && Wanted(t, key, end, i) :: i in a && !IsFill(a[i].name)
  }

  /** Fills aside, a holds rows of t. */
  ghost predicate PartOf(a: Table, t: Table, lo: nat) {
    forall i | i in a && lo < i && !IsFill(a[i].name) ::
          i in t && t[i].name == a[i].name && Scan(i, t[i]) == Scan(i, a[i])
  }

  lemma {:induction false} ExpectedFrame(a: Table, t: Table, key: string, end: string, lo: nat, hi: nat)
    requires PartOf(a, t, lo) && SameWanted(a, t, key, end, lo, hi)
    ensures Expected(a, key, end, lo, hi) == Expected(t, key, end, lo, hi)
    decreases hi
  {
    if lo < hi {
      ExpectedFrame(a, t, key, end, lo, hi - 1);
      ExpectedStep(a, key, end, lo, hi);
      ExpectedStep(t, key, end, lo, hi);
    }
  }

  lemma ExpectedSame(a: Table, t: Table, key: string, end: string, lo: nat, hi: nat)
    requires PartOf(a, t, lo)
    ensures Expected(a, key, end, lo, hi) == Expected(t, key, end, lo, hi) <==> SameWanted(a, t, key, end, lo, hi)
  {
    if SameWanted(a, t, key, end, lo, hi) {
      ExpectedFrame(a, t, key, end, lo, hi);
    }
    if Expected(a, key, end, lo, hi) == Expected(t, key, end, lo, hi) {
      ExpectedRows(a, key, end, lo, hi);
      ExpectedRows(t, key, end, lo, hi);
      forall i | lo < i <= hi && i in t && Wanted(t, key, end, i) ensures i in a && !IsFill(a[i].name) {
        assert Scan(i, t[i]) in Expected(a, key, end, lo, hi);
      }
    }
  }

  // ----- the splice -----

  /** What has been delivered once the poller, at p when the watch subscribed, has reached q;
      `a` is the table the historical query saw. */
  function Delivered(a: Table, t: Table, key: string, end: string, start: nat, p: nat, q: nat): seq<Event> {
    var history := Select(a, key, end, start, MaxId(a));
    history + Newer(Keep(Span(t, p, q), key, end), LastRevision(a, key, end, start))
  }

  function LastRevision(a: Table, key: string, end: string, start: nat): nat {
    if Select(a, key, end, start, MaxId(a)) != [] then MaxId(a) else start
  }

  /** Where the two sources meet: at the highest row of the historical query or the position of
      the poller, whichever is later, when the query found something; otherwise at the start or the
      position of the poller. */
  function Edge(a: Table, key: string, end: string, start: nat, p: nat): nat {
    var last := LastRevision(a, key, end, start);
    if p < last then last else p
  }

  /** A watch delivers what its query saw up to the edge, and everything after it. That is exactly
      the changes of its range after its start revision, each once and in order, if and only if no
      wanted row up to the edge is hidden from the query. */
  lemma SpliceExact(a: Table, t: Table, key: string, end: string, start: nat, p: nat, q: nat)
    requires WellFormed(key, end) && PartOf(a, t, start) && MaxId(a) <= q && p <= q
    ensures var edge := Edge(a, key, end, start, p);
            && NoFills(Delivered(a, t, key, end, start, p, q)) ==
                Expected(a, key, end, start, edge) + Expected(t, key, end, edge, q)
            && (NoFills(Delivered(a, t, key, end, start, p, q)) == Expected(t, key, end, start, q)
                <==> SameWanted(a, t, key, end, start, edge))
  {
    var edge := Edge(a, key, end, start, p);
    DeliveredParts(a, t, key, end, start, p, q);
    ExpectedTop(a, key, end, start, edge, MaxId(a));
    ExpectedSame(a, t, key, end, start, edge);
    if start < edge <= q {
      ExpectedSplit(t, key, end, start, edge, q);
      CancelRight(Expected(a, key, end, start, edge), Expected(t, key, end, start, edge),
          Expected(t, key, end, edge, q));
    }
  }

  /** Beyond the highest row, or when the query found nothing, there is nothing to expect. */
  lemma {:induction false} ExpectedTop(a: Table, key: string, end: string, lo: nat, hi: nat, top: nat)
    requires top == MaxId(a) && (top <= hi || Select(a, key, end, lo, top) == [])
    ensures Expected(a, key, end, lo, hi) == Expected(a, key, end, lo, top)
    decreases hi
  {
    if Select(a, key, end, lo, top) == [] {
      SelectRows(a, key, end, lo, top);
      assert forall i | i in a :: i in a.Keys;
      SelectRows(a, key, end, lo, hi);
    } else if top < hi {
      assert hi in a ==> hi in a.Keys;
      ExpectedTop(a, key, end, lo, hi - 1, top);
      if lo < hi { ExpectedStep(a, key, end, lo, hi); }
    }
  }

  /** The two sources, fills aside: history up to its highest row, and what is expected from the
      later of the subscription and the last revision on. */
  lemma DeliveredParts(a: Table, t: Table, key: string, end: string, start: nat, p: nat, q: nat)
    requires WellFormed(key, end)
    ensures var last := LastRevision(a, key, end, start);
            NoFills(Delivered(a, t, key, end, start, p, q))
            == Expected(a, key, end, start, MaxId(a)) + Expected(t, key, end, if p < last then last else p, q)
  {
    var last := LastRevision(a, key, end, start);
    LiveIsExpected(t, key, end, p, q);
    NewerExpected(t, key, end, p, q, last);
    var from := if p < last then last else p;
    NoFillsAppend(Select(a, key, end, start, MaxId(a)), Expected(t, key, end, from, q));
    NoFillsIdempotent(t, key, end, from, q);
  }

  lemma CancelRight(a: seq<Event>, b: seq<Event>, c: seq<Event>)
    ensures a + c == b + c <==> a == b
  {
    if a + c == b + c {
      assert a == (a + c)[..|a|] && b == (b + c)[..|b|];
    }
  }

  lemma {:induction false} NoFillsTwice(s: seq<Event>)
    ensures NoFills(NoFills(s)) == NoFills(s)
    decreases |s|
  {
    if s != [] {
      NoFillsTwice(s[..|s| - 1]);
      var last := if IsFill(s[|s| - 1].kv.key) then [] else [s[|s| - 1]];
      NoFillsAppend(NoFills(s[..|s| - 1]), last);
      assert last != [] ==> last[..0] == [] && NoFills(last[..0]) == [];
    }
  }

  lemma NoFillsIdempotent(t: Table, key: string, end: string, lo: nat, hi: nat)
    ensures NoFills(Expected(t, key, end, lo, hi)) == Expected(t, key, end, lo, hi)
  {
    NoFillsTwice(Select(t, key, end, lo, hi));
  }

  lemma {:induction false} SelectRows(t: Table, key: string, end: string, lo: nat, hi: nat)
    ensures Select(t, key, end, lo, hi) == [] <==> forall i | lo < i <= hi && i in t :: !Selects(key, end, t[i].name)
    decreases hi
  {
    if lo < hi { SelectRows(t, key, end, lo, hi - 1); }
  }

  // ----- the code -----

  /** What one entry of a batch adds. */
  function KeepOne(e: Option<Event>, key: string, end: string): seq<Event> {
    if e.Some? && InRange(key, end, e.value.kv.key) then [e.value] else []
  }

  lemma KeepStep(events: seq<Option<Event>>, i: nat, key: string, end: string)
    requires i < |events|
    ensures Keep(NonNil(events[..i + 1]), key, end) ==
              Keep(NonNil(events[..i]), key, end) + KeepOne(events[i], key, end)
  {
    NonNilStep(events, i);
    if events[i].Some? {
      KeepPush(NonNil(events[..i]), events[i].value, key, end);
    } else {
      assert NonNil(events[..i]) + [] == NonNil(events[..i]);
    }
  }

  lemma KeepPush(s: seq<Event>, e: Event, key: string, end: string)
    ensures Keep(s + [e], key, end) == Keep(s, key, end) + KeepOne(Some(e), key, end)
  {
    assert (s + [e])[..|s|] == s;
  }

  /** sqllog.filter with empty selectors: nil entries and events out of range go. */
  method FilterBatch(events: seq<Option<Event>>, key: string, end: string) returns (kept: seq<Event>, ok: bool)
    ensures kept == Keep(NonNil(events), key, end)
    ensures ok <==> kept != []
  {
    assert events[..|events|] == events;
    if |events| == 1 {
      KeepStep(events, 0, key, end);
      assert Keep(NonNil(events[..0]), key, end) == [];
      if events[0].Some? && InRange(key, end, events[0].value.kv.key) {
        return [events[0].value], true;
      }
      return [], false;
    }
    kept := [];
    for i := 0 to |events|
      invariant kept == Keep(NonNil(events[..i]), key, end)
    {
      KeepStep(events, i, key, end);
      if events[i].Some? && InRange(key, end, events[i].value.kv.key) {
        kept := kept + [events[i].value];
      }
    }
    ok := kept != [];
  }

  /** logstructured.filter: drop the leading events already delivered. On ascending events that
      drops all of them. */
  method Trim(events: seq<Event>, rev: nat) returns (rest: seq<Event>)
    requires Ascending(events)
    ensures rest == Newer(events, rev)
  {
    rest := events;
    ghost var cut := 0;
    while |rest| > 0 && rest[0].kv.modRev <= rev
      invariant 0 <= cut <= |events| && rest == events[cut..]
      invariant forall k | 0 <= k < cut :: events[k].kv.modRev <= rev
    {
      rest, cut := rest[1..], cut + 1;
    }
    NewerCut(events, rev, cut);
  }

  lemma {:induction false} NewerNone(s: seq<Event>, rev: nat)
    requires forall k | 0 <= k < |s| :: s[k].kv.modRev <= rev
    ensures Newer(s, rev) == []
  {
    if s != [] { NewerNone(s[..|s| - 1], rev); }
  }

  lemma {:induction false} NewerAll(s: seq<Event>, rev: nat)
    requires forall k | 0 <= k < |s| :: rev < s[k].kv.modRev
    ensures Newer(s, rev) == s
  {
    if s != [] { NewerAll(s[..|s| - 1], rev); }
  }

  lemma NewerCut(s: seq<Event>, rev: nat, cut: nat)
    requires cut <= |s| && (forall k | 0 <= k < cut :: s[k].kv.modRev <= rev)
    requires (forall k | cut <= k < |s| :: rev < s[k].kv.modRev)
    ensures Newer(s, rev) == s[cut..]
  {
    NewerNone(s[..cut], rev);
    NewerAll(s[cut..], rev);
    NewerAppend(s[..cut], s[cut..], rev);
    assert s == s[..cut] + s[cut..];
  }

  function Flatten(batches: seq<seq<Option<Event>>>): seq<Event> {
    if batches == [] then [] else Flatten(batches[..|batches| - 1]) + NonNil(batches[|batches| - 1])
  }

  lemma {:induction false} KeepPart(s: seq<Event>, key: string, end: string)
    ensures forall e | e in Keep(s, key, end) :: e in s
    ensures Ascending(s) ==> Ascending(Keep(s, key, end))
    decreases |s|
  {
    if s != [] {
      var front := Keep(s[..|s| - 1], key, end);
      KeepPart(s[..|s| - 1], key, end);
      if Ascending(s) {
        assert Ascending(s[..|s| - 1]);
        forall k | 0 <= k < |front| ensures front[k].kv.modRev < s[|s| - 1].kv.modRev {
          assert front[k] in s[..|s| - 1];
        }
      }
    }
  }

  lemma OneMoreBatch(batches: seq<seq<Option<Event>>>, i: nat, key: string, end: string, last: nat)
    requires i < |batches|
    ensures Newer(Keep(Flatten(batches[..i + 1]), key, end), last)
         == Newer(Keep(Flatten(batches[..i]), key, end), last) + Newer(Keep(NonNil(batches[i]), key, end), last)
  {
    assert batches[..i + 1][..i] == batches[..i];
    KeepAppend(Flatten(batches[..i]), NonNil(batches[i]), key, end);
    NewerAppend(Keep(Flatten(batches[..i]), key, end), Keep(NonNil(batches[i]), key, end), last);
  }

  /** The goroutine of LogStructured.Watch: history first, then every live batch, filtered by
      range and trimmed. */
  method Forward(history: seq<Event>, rev: nat, start: nat, batches: seq<seq<Option<Event>>>, key: string, end: string)
    returns (out: seq<Event>)
    requires forall k | 0 <= k < |batches| :: Ascending(NonNil(batches[k]))
    ensures out == history + Newer(Keep(Flatten(batches), key, end), if history != [] then rev else start)
  {
    var lastRevision := start;
    if |history| > 0 {
      lastRevision := rev;
    }
    var live := [];
    for i := 0 to |batches|
      invariant live == Newer(Keep(Flatten(batches[..i]), key, end), lastRevision)
    {
      var kept, ok := FilterBatch(batches[i], key, end);
      OneMoreBatch(batches, i, key, end, lastRevision);
      if ok {
        KeepPart(NonNil(batches[i]), key, end);
        var rest := Trim(kept, lastRevision);
        live := live + rest;
      }
    }
    assert batches[..|batches|] == batches;
    out := history + live;
  }

  /** Fed with the rows of its query and the batches of the poller, the loop delivers what a watch delivers. */
  lemma ForwardDelivers(a: Table, t: Table, key: string, end: string, start: nat, p: nat, q: nat,
                        batches: seq<seq<Option<Event>>>)
    requires Flatten(batches) == Span(t, p, q)
    ensures var history := Select(a, key, end, start, MaxId(a));
            history + Newer(Keep(Flatten(batches), key, end), if history != [] then MaxId(a) else start)
            == Delivered(a, t, key, end, start, p, q)
  {
  }
}

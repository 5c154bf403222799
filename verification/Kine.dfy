/** The `kine` table and the queries the log runs against it. A row's id is its revision. */
module Kine {
  import opened Options
  import opened Text

  /** One row. `prev` is prev_revision, `oldValue` the value of the row it replaces. */
  datatype Row = Row(name: string, created: bool, deleted: bool, createRev: nat, prev: nat,
                     lease: int, value: string, oldValue: string)

  type Table = map<nat, Row>

  datatype KeyValue = KeyValue(key: string, value: string, createRev: nat, modRev: nat, lease: int)

  datatype Event = Event(create: bool, delete: bool, kv: KeyValue, prevKV: Option<KeyValue>)

  /** The reserved row whose prev_revision column stores the compact revision. */
  const COMPACT_REV_KEY := "compact_rev_key"
  const FILL_PREFIX := "gap-"

  predicate IsFill(name: string) {
    HasPrefix(name, FILL_PREFIX)
  }

  function FillRow(id: nat): Row {
    Row(FILL_PREFIX + Decimal(id), false, true, 0, 0, 0, "", "")
  }

  /** Converting a row to an event. A created row reports its own id as create revision
      and has no previous version. */
  function Scan(id: nat, row: Row): Event {
    if row.created then
      Event(true, row.deleted, KeyValue(row.name, row.value, id, id, row.lease), None)
    else
      Event(false, row.deleted, KeyValue(row.name, row.value, row.createRev, id, row.lease),
            Some(KeyValue(row.name, row.oldValue, row.createRev, row.prev, row.lease)))
  }

  function CreateRev(id: nat, row: Row): nat {
    if row.created then id else row.createRev
  }

  // ----- aggregates -----

  lemma {:induction false} MaxExists(s: set<nat>)
    requires s != {}
    ensures exists m :: m in s && forall x | x in s :: x <= m
    decreases |s|
  {
    var x :| x in s;
    var rest := s - {x};
    if rest == {} {
      assert s == {x};
      assert x in s && forall y | y in s :: y <= x;
    } else {
      MaxExists(rest);
      var m :| m in rest && forall y | y in rest :: y <= m;
      var top := if m < x then x else m;
      forall y | y in s ensures y <= top { assert y == x || y in rest; }
      assert top in s;
    }
  }

  /** SQL MAX over a set of revisions, with NULL read as 0. */
  function Max(s: set<nat>): (m: nat)
    ensures s == {} ==> m == 0
    ensures s != {} ==> m in s
    ensures forall x | x in s :: x <= m
  {
    if s == {} then 0 else
      MaxExists(s);
      var m :| m in s && forall x | x in s :: x <= m;
      m
  }

  /** SELECT MAX(id) */
  function MaxId(t: Table): nat {
    Max(t.Keys)
  }

  /** SELECT MAX(prev_revision) WHERE name = 'compact_rev_key' */
  function CompactRev(t: Table): (m: nat)
    ensures forall i | i in t && t[i].name == COMPACT_REV_KEY :: t[i].prev <= m
    ensures m == 0 || exists i :: i in t && t[i].name == COMPACT_REV_KEY && t[i].prev == m
  {
    var revs := set i | i in t && t[i].name == COMPACT_REV_KEY :: t[i].prev;
    assert forall i | i in t && t[i].name == COMPACT_REV_KEY :: t[i].prev in revs;
    Max(revs)
  }

  /** UPDATE kine SET prev_revision = r WHERE name = 'compact_rev_key' */
  function SetCompactRev(t: Table, r: nat): Table {
    map i | i in t :: if t[i].name == COMPACT_REV_KEY then t[i].(prev := r) else t[i]
  }

  /** SELECT MAX(id) WHERE name = ? */
  function Latest(t: Table, name: string): (m: nat)
    ensures forall j | j in t && t[j].name == name :: j <= m
    ensures (m in t && t[m].name == name) || (m == 0 && forall j | j in t :: t[j].name != name)
  {
    var ids := set i | i in t && t[i].name == name;
    assert forall j | j in t && t[j].name == name :: j in ids;
    Max(ids)
  }

  /** Row i is the one `SELECT MAX(id) ... AND id <= r GROUP BY name` picks for its name. */
  predicate IsLatestAt(t: Table, i: nat, r: nat) {
    i in t && i <= r && forall j | j in t && t[j].name == t[i].name && j <= r :: j <= i
  }

  /** The rows of a list query at revision r, by id; ORDER BY name and LIMIT only arrange them,
      since no two rows of the result share a name. */
  function ListAt(t: Table, key: string, end: string, r: nat, includeDeleted: bool): map<nat, Event> {
    map i | i in t && Between(t[i].name, key, end) && IsLatestAt(t, i, r) &&
            (includeDeleted || !t[i].deleted) :: Scan(i, t[i])
  }

  /** The unique index on (name, prev_revision) already holds this pair. */
  predicate Taken(t: Table, name: string, prev: nat) {
    exists k :: k in t && t[k].name == name && t[k].prev == prev
  }

  // ----- rows in revision order -----

  /** What id hi adds to a span. */
  function SpanAt(t: Table, hi: nat): seq<Event> {
    if hi in t && !IsFill(t[hi].name) then [Scan(hi, t[hi])] else []
  }

  /** The events of the rows with ids in (lo, hi], fills left out, in id order. */
  function Span(t: Table, lo: nat, hi: nat): seq<Event>
    decreases hi
  {
    if hi <= lo then []
    else Span(t, lo, hi - 1) + SpanAt(t, hi)
  }

  ghost predicate SameRows(t: Table, u: Table, lo: nat, hi: nat) {
    forall i | lo < i <= hi ::
          (i in t <==> i in u) && (i in t ==> t[i].name == u[i].name && Scan(i, t[i]) == Scan(i, u[i]))
  }

  lemma {:induction false} SpanFrame(t: Table, u: Table, lo: nat, hi: nat)
    requires SameRows(t, u, lo, hi)
    ensures Span(t, lo, hi) == Span(u, lo, hi)
    decreases hi
  {
    if hi > lo {
      SpanFrame(t, u, lo, hi - 1);
    }
  }

  lemma {:induction false} SpanSplit(t: Table, lo: nat, mid: nat, hi: nat)
    requires lo <= mid <= hi
    ensures Span(t, lo, hi) == Span(t, lo, mid) + Span(t, mid, hi)
    decreases hi
  {
    if hi > mid {
      SpanSplit(t, lo, mid, hi - 1);
    }
  }

  /** Every event is that of a non-fill row of the interval. */
  ghost predicate OnlyRows(s: seq<Event>, t: Table, lo: nat, hi: nat) {
    forall k | 0 <= k < |s| ::
      var id := s[k].kv.modRev;
      lo < id <= hi && id in t && !IsFill(t[id].name) && s[k] == Scan(id, t[id])
  }

  /** Every non-fill row of the interval has its event. */
  ghost predicate AllRows(s: seq<Event>, t: Table, lo: nat, hi: nat) {
    forall id | lo < id <= hi && id in t && !IsFill(t[id].name) :: Scan(id, t[id]) in s
  }

  ghost predicate Rising(s: seq<Event>) {
    forall k, l | 0 <= k < l < |s| :: s[k].kv.modRev < s[l].kv.modRev
  }

  ghost predicate SpanOf(s: seq<Event>, t: Table, lo: nat, hi: nat) {
    OnlyRows(s, t, lo, hi) && AllRows(s, t, lo, hi) && Rising(s)
  }

  lemma OnlyRowsNext(s: seq<Event>, t: Table, lo: nat, hi: nat)
    requires lo < hi && OnlyRows(s, t, lo, hi - 1)
    ensures OnlyRows(s + SpanAt(t, hi), t, lo, hi)
  {
  }

  lemma AllRowsNext(s: seq<Event>, t: Table, lo: nat, hi: nat)
    requires lo < hi && AllRows(s, t, lo, hi - 1)
    ensures AllRows(s + SpanAt(t, hi), t, lo, hi)
  {
    var s' := s + SpanAt(t, hi);
    forall id | lo < id <= hi && id in t && !IsFill(t[id].name) ensures Scan(id, t[id]) in s' {
      if id < hi { assert Scan(id, t[id]) in s; } else { assert s'[|s|] == Scan(hi, t[hi]); }
    }
  }

  lemma RisingNext(s: seq<Event>, t: Table, lo: nat, hi: nat)
    requires lo < hi && OnlyRows(s, t, lo, hi - 1) && Rising(s)
    ensures Rising(s + SpanAt(t, hi))
  {
  }

  /** Span is exactly the non-fill rows of the interval, each once, in increasing order. */
  lemma {:induction false} SpanExact(t: Table, lo: nat, hi: nat)
    ensures SpanOf(Span(t, lo, hi), t, lo, hi)
    decreases hi
  {
    if hi > lo {
      SpanExact(t, lo, hi - 1);
      var s := Span(t, lo, hi - 1);
      OnlyRowsNext(s, t, lo, hi);
      AllRowsNext(s, t, lo, hi);
      RisingNext(s, t, lo, hi);
      assert Span(t, lo, hi) == s + SpanAt(t, hi);
    }
  }
}

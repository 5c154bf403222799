/** Entries of the in-memory store, the full history they form, and what a reader should see
    of it at a revision. */
module MemoryHistory {
  datatype KeyValue = KeyValue(key: string, value: string, createRevision: nat, modRevision: nat, version: nat,
      lease: int)

  /** One version of a key. Only the pointer to the previous version ever changes. */
  class Entry {
    const revision: nat
    const key: string
    const value: string
    const createRevision: nat
    const version: nat
    const prevRevision: nat
    const lease: int
    const created: bool
    const deleted: bool
    var prev: Entry?

    constructor (kv: KeyValue, prevRevision: nat, created: bool, deleted: bool, prev: Entry?)
      ensures ToKeyValue() == kv && this.prevRevision == prevRevision
      ensures this.created == created && this.deleted == deleted && this.prev == prev
    {
      revision, key, value, createRevision := kv.modRevision, kv.key, kv.value, kv.createRevision;
      version, lease := kv.version, kv.lease;
      this.prevRevision, this.created, this.deleted, this.prev := prevRevision, created, deleted, prev;
    }

    function ToKeyValue(): KeyValue {
      KeyValue(key, value, createRevision, revision, version, lease)
    }
  }

  // ----- histories -----

  /** Entry i carries revision i + 1. */
  ghost predicate Dense(h: seq<Entry>) {
    forall i | 0 <= i < |h| :: h[i].revision == i + 1
  }

  ghost predicate Ordered(h: seq<Entry>) {
    forall i, j | 0 <= i < j < |h| :: h[i].revision < h[j].revision
  }

  /** The versions of one key, oldest first. */
  ghost function OfKey(h: seq<Entry>, k: string): seq<Entry> {
    if h == [] then []
    else OfKey(h[..|h| - 1], k) + (if h[|h| - 1].key == k then [h[|h| - 1]] else [])
  }

  /** The latest version at or before revision r. */
  ghost function Floor(h: seq<Entry>, r: int): Entry? {
    if h == [] then null
    else if h[|h| - 1].revision <= r then h[|h| - 1]
    else Floor(h[..|h| - 1], r)
  }

  ghost function LiveAt(h: seq<Entry>, r: int): Entry? {
    var e := Floor(h, r);
    if e != null && !e.deleted then e else null
  }

  lemma {:induction false} OfKeyFacts(h: seq<Entry>, k: string)
    requires Ordered(h)
    ensures Ordered(OfKey(h, k))
    ensures forall e | e in OfKey(h, k) :: e in h && e.key == k
    ensures forall e | e in h && e.key == k :: e in OfKey(h, k)
  {
    if h != [] {
      var front := h[..|h| - 1];
      OfKeyFacts(front, k);
      forall i | 0 <= i < |OfKey(front, k)| ensures OfKey(front, k)[i].revision < h[|h| - 1].revision {
        assert OfKey(front, k)[i] in front;
      }
    }
  }

  lemma OfKeyAppend(h: seq<Entry>, e: Entry, k: string)
    ensures OfKey(h + [e], k) == OfKey(h, k) + (if e.key == k then [e] else [])
  {
    assert (h + [e])[..|h|] == h;
  }

  lemma {:induction false} FloorFacts(h: seq<Entry>, r: int)
    requires Ordered(h)
    ensures Floor(h, r) == null <==> forall e | e in h :: r < e.revision
    ensures var e := Floor(h, r); e != null ==>
              e in h && e.revision <= r && forall f | f in h && f.revision <= r :: f.revision <= e.revision
  {
    if h != [] {
      FloorFacts(h[..|h| - 1], r);
      assert h == h[..|h| - 1] + [h[|h| - 1]];
    }
  }

  /** With the entries up to index i at or below r and the next above it, entry i is the floor. */
  lemma {:induction false} FloorAt(h: seq<Entry>, r: int, n: nat)
    requires n <= |h| && (forall i | 0 <= i < n :: h[i].revision <= r) && (forall i | n <= i < |h| :: r < h[i].revision)
    ensures Floor(h, r) == if n == 0 then null else h[n - 1]
  {
    if n < |h| { FloorAt(h[..|h| - 1], r, n); }
  }

  // ----- lifetimes -----

  /** How a version follows the one before it (none when p is null). */
  ghost predicate Follows(p: Entry?, e: Entry) {
    if e.created then
      && !e.deleted && (p == null || p.deleted) && e.createRevision == e.revision && e.version == 1
      && (e.prevRevision == 0 || (p != null && e.prevRevision == p.revision))
    else
      && p != null && !p.deleted && e.createRevision == p.createRevision && e.prevRevision == p.revision
      && (if e.deleted then e.version == p.version && e.value == p.value && e.lease == p.lease
          else e.version == p.version + 1)
  }

  ghost function Prior(h: seq<Entry>, i: nat): Entry?
    requires i < |h|
  {
    if i == 0 then null else h[i - 1]
  }

  ghost predicate Lived(h: seq<Entry>) {
    forall i {:trigger Prior(h, i)} | 0 <= i < |h| :: Follows(Prior(h, i), h[i])
  }

  /** The index of the create that starts the lifetime of version i. */
  ghost function Birth(h: seq<Entry>, i: nat): nat
    requires i < |h|
  {
    if h[i].created || i == 0 then i else Birth(h, i - 1)
  }

  /** Create revision and version count from the create that starts the current lifetime. */
  lemma {:induction false} LifetimeCorrect(h: seq<Entry>, i: nat)
    requires Lived(h) && i < |h|
    ensures var b := Birth(h, i);
            && b <= i && h[b].created && h[i].createRevision == h[b].revision
            && (forall j | b < j <= i :: !h[j].created) && (forall j | b <= j < i :: !h[j].deleted)
            && h[i].version == (if h[i].deleted then i - b else i - b + 1)
  {
    assert Follows(Prior(h, i), h[i]);
    if i > 0 { LifetimeCorrect(h, i - 1); }
  }

  // ----- what compaction leaves -----

  /** The first d versions are gone: they end at or below the compact revision c, and either end
      in a tombstone or the version that replaced them is at or below c too. */
  ghost predicate MayDrop(h: seq<Entry>, d: nat, c: nat) {
    && d <= |h|
    && (d > 0 ==> h[d - 1].revision <= c && (h[d - 1].deleted || (d < |h| && h[d].revision <= c)))
  }

  /** At the compact revision and after it, readers see the same live version. */
  lemma DropInvisible(h: seq<Entry>, d: nat, c: nat, r: int)
    requires Ordered(h) && MayDrop(h, d, c) && c <= r
    ensures LiveAt(h[d..], r) == LiveAt(h, r)
    ensures Floor(h[d..], r) == Floor(h, r) || (Floor(h[d..], r) == null && Floor(h, r).deleted)
  {
    var n := CountUpTo(h, r);
    FloorAt(h, r, n);
    assert d <= n;
    FloorAt(h[d..], r, n - d);
  }

  ghost function CountUpTo(h: seq<Entry>, r: int): (n: nat)
    requires Ordered(h)
    ensures n <= |h| && (forall i | 0 <= i < n :: h[i].revision <= r) && (forall i | n <= i < |h| :: r < h[i].revision)
  {
    if h == [] then 0
    else if h[|h| - 1].revision <= r then |h|
    else CountUpTo(h[..|h| - 1], r)
  }
}

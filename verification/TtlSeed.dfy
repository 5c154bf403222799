/** Seeding the expiry queue: paging through all leased keys at one revision, each page starting
    at the last key of the one before. */
module TtlSeed {
  import opened Text
  import opened MemoryHistory
  import opened MemoryListing
  import opened Memory
  import opened PagedList
  import Ttl

  /** What the seed records of a key. */
  datatype Lease = Lease(modRevision: nat, lease: int)

  const LIST_PAGE_SIZE := 1000

  function Save(store: map<string, Lease>, kv: KeyValue): map<string, Lease> {
    if kv.lease > 0 then store[kv.key := Lease(kv.modRevision, kv.lease)] else store
  }

  /** The record of the first n listed keys. */
  ghost function RecordOf(all: seq<KeyValue>, n: nat): map<string, Lease>
    requires n <= |all|
  {
    if n == 0 then map[] else Save(RecordOf(all, n - 1), all[n - 1])
  }

  ghost predicate Distinct(all: seq<KeyValue>) {
    forall i, j | 0 <= i < j < |all| :: all[i].key != all[j].key
  }

  /** The leased keys of the listing, and nothing else, are on record. */
  ghost predicate Recorded(store: map<string, Lease>, all: seq<KeyValue>, n: nat)
    requires n <= |all|
  {
    && (forall i | 0 <= i < n && all[i].lease > 0 ::
          all[i].key in store && store[all[i].key] == Lease(all[i].modRevision, all[i].lease))
    && (forall k | k in store :: exists i :: 0 <= i < n && all[i].key == k && all[i].lease > 0)
  }

  lemma {:induction false} RecordHas(all: seq<KeyValue>, n: nat, i: nat)
    requires Distinct(all) && i < n <= |all| && all[i].lease > 0
    ensures all[i].key in RecordOf(all, n) && RecordOf(all, n)[all[i].key] == Lease(all[i].modRevision, all[i].lease)
  {
    if i < n - 1 {
      RecordHas(all, n - 1, i);
      assert all[i].key != all[n - 1].key;
    }
  }

  lemma {:induction false} RecordOnly(all: seq<KeyValue>, n: nat, k: string) returns (i: nat)
    requires n <= |all| && k in RecordOf(all, n)
    ensures i < n && all[i].key == k && all[i].lease > 0
  {
    if k in RecordOf(all, n - 1) {
      i := RecordOnly(all, n - 1, k);
    } else {
      i := n - 1;
    }
  }

  lemma RecordExact(all: seq<KeyValue>, n: nat)
    requires Distinct(all) && n <= |all|
    ensures Recorded(RecordOf(all, n), all, n)
  {
    var store := RecordOf(all, n);
    forall i | 0 <= i < n && all[i].lease > 0
      ensures all[i].key in store && store[all[i].key] == Lease(all[i].modRevision, all[i].lease)
    {
      RecordHas(all, n, i);
    }
    forall k | k in store ensures exists i :: 0 <= i < n && all[i].key == k && all[i].lease > 0 {
      var i := RecordOnly(all, n, k);
    }
  }

  /** Recording the next key, or the last one a second time. */
  lemma SaveStep(all: seq<KeyValue>, n: nat, i: nat)
    requires n <= |all| && i < |all| && i <= n <= i + 1
    ensures Save(RecordOf(all, n), all[i]) == RecordOf(all, i + 1)
  {
  }

  /** One page of the listing, starting at index `from`; a short one is the last. */
  ghost predicate IsPage(kvs: seq<KeyValue>, all: seq<KeyValue>, from: nat) {
    && from + |kvs| <= |all| && (|kvs| < LIST_PAGE_SIZE ==> from + |kvs| == |all|)
    && forall i | 0 <= i < |kvs| :: kvs[i] == all[from + i].(value := "")
  }

  /** What a list of keys returns is a page, whether or not the backend honours the page size. */
  lemma ListIsPage(kvs: seq<KeyValue>, all: seq<KeyValue>, from: nat, honours: bool)
    requires from <= |all| && Shows(kvs, Limited(all[from..], if honours then LIST_PAGE_SIZE else 0), true)
    ensures IsPage(kvs, all, from)
  {
    var l := Limited(all[from..], if honours then LIST_PAGE_SIZE else 0);
    forall i | 0 <= i < |kvs| ensures kvs[i] == all[from + i].(value := "") { assert ShowsAt(kvs, l, i, true); }
  }

  method SavePage(kvs: seq<KeyValue>, store: map<string, Lease>, ghost all: seq<KeyValue>, ghost from: nat,
                  ghost n: nat)
    returns (store': map<string, Lease>)
    requires kvs != [] && from <= n <= from + 1 && n <= |all| && IsPage(kvs, all, from)
    requires store == RecordOf(all, n)
    ensures store' == RecordOf(all, from + |kvs|)
  {
    store' := store;
    for i := 0 to |kvs|
      invariant store' == RecordOf(all, if i == 0 then n else from + i)
    {
      SaveStep(all, if i == 0 then n else from + i, from + i);
      assert kvs[i] == all[from + i].(value := "");
      if kvs[i].lease > 0 {
        store' := store'[kvs[i].key := Lease(kvs[i].modRevision, kvs[i].lease)];
      }
    }
  }

  /** Listing again from a listed key gives the rest of the listing, that key included. */
  lemma Restart(h: seq<Entry>, key: string, end: string, r: int, j: nat)
    requires Dense(h) && end != "" && j < |Listing(h, key, end, r)|
    ensures Listing(h, Listing(h, key, end, r)[j].key, end, r) == Listing(h, key, end, r)[j..]
  {
    var all := Listing(h, key, end, r);
    var from, rest := all[j].key, all[j..];
    ListingCorrect(h, key, end, r);
    ListingCorrect(h, from, end, r);
    forall i | 0 <= i < |rest| ensures Lists(h, rest[i].key, from, end, r) {
      assert rest[i] == all[j + i];
      LessTotal(from, rest[i].key);
    }
    forall k | Lists(h, k, from, end, r) ensures HasKey(rest, k) {
      InWider(all, h, key, end, r, j, k);
      assert HasKey(all, k);
      var i :| 0 <= i < |all| && all[i].key == k;
      assert i < j ==> Less(k, from);
      assert rest[i - j].key == k;
    }
    assert IsListing(rest, h, from, end, r);
    ListingUnique(rest, Listing(h, from, end, r), h, from, end, r);
  }

  /** The seed lists exactly the live keys that begin with a slash. */
  lemma SeedLists(h: seq<Entry>, r: int, k: string)
    requires Dense(h)
    ensures HasKey(Listing(h, "/", "0", r), k) <==> HasPrefix(k, "/") && LiveAt(OfKey(h, k), r) != null
  {
    var all := Listing(h, "/", "0", r);
    ListingCorrect(h, "/", "0", r);
    Ttl.ListedIsRooted(k);
    if HasKey(all, k) {
      var i :| 0 <= i < |all| && all[i].key == k;
      assert ListedAs(h, all[i], "/", "0", r);
    }
    assert Lists(h, k, "/", "0", r) ==> HasKey(all, k);
  }

  lemma InWider(all: seq<KeyValue>, h: seq<Entry>, key: string, end: string, r: int, j: nat, k: string)
    requires IsListing(all, h, key, end, r) && end != "" && j < |all| && Lists(h, k, all[j].key, end, r)
    ensures Lists(h, k, key, end, r)
  {
    assert Between(all[j].key, key, end);
    if Less(k, key) {
      LessTotal(all[j].key, key);
      if all[j].key != key { LessTransitive(k, key, all[j].key); }
    }
  }

  lemma ListingDistinct(h: seq<Entry>, key: string, end: string, r: int)
    requires Dense(h)
    ensures Distinct(Listing(h, key, end, r))
  {
    var all := Listing(h, key, end, r);
    ListingCorrect(h, key, end, r);
    forall i, j | 0 <= i < j < |all| ensures all[i].key != all[j].key { LessTotal(all[i].key, all[i].key); }
  }

  /** A page is due: n keys are on record, and the page starts at the last of them, or at the first key. */
  ghost predicate Due(kvs: seq<KeyValue>, store: map<string, Lease>, all: seq<KeyValue>, from: nat, n: nat) {
    from <= n <= from + 1 && n <= |all| && IsPage(kvs, all, from) && store == RecordOf(all, n)
  }

  /** The loop's state: done with every key on record, or a page is due. */
  ghost predicate Progress(kvs: seq<KeyValue>, store: map<string, Lease>, all: seq<KeyValue>, from: nat, n: nat,
                           more: bool) {
    (more ==> Due(kvs, store, all, from, n)) && (!more ==> store == RecordOf(all, |all|))
  }

  /** Records one page and tells where the next one starts. */
  method ProcessPage(kvs: seq<KeyValue>, store: map<string, Lease>, ghost all: seq<KeyValue>, ghost from: nat,
                     ghost n: nat)
    returns (store': map<string, Lease>, last: string, ghost n': nat)
    requires kvs != [] && Due(kvs, store, all, from, n)
    ensures from < n' <= |all| && n' == from + |kvs| && last == all[n' - 1].key && store' == RecordOf(all, n')
    ensures |kvs| < LIST_PAGE_SIZE ==> Progress(kvs, store', all, from, n', false)
  {
    store' := SavePage(kvs, store, all, from, n);
    last, n' := kvs[|kvs| - 1].key, from + |kvs|;
  }

  /** The next page, after other clients have been at work. */
  method NextPage(m: Memory, last: string, rev: nat, honours: bool, ops: seq<Op>,
                  ghost h: seq<Entry>, ghost all: seq<KeyValue>, ghost from: nat, ghost store: map<string, Lease>)
    returns (kvs: seq<KeyValue>, ok: bool)
    requires m.Valid() && h <= m.history && rev == |h|
    requires all == Listing(h, "/", "0", rev) && from < |all| && last == all[from].key
    requires store == RecordOf(all, from + 1)
    modifies m, set e | e in m.history
    ensures m.Valid() && h <= m.history
    ensures forall e | e in m.history :: e in old(m.history) || fresh(e)
    ensures ok ==> Progress(kvs, store, all, from, from + 1, true)
    ensures !ok ==> rev < m.compactRevision
  {
    NothingListed(h, "/", "0", rev);
    m.Interfere(ops);
    var current, err;
    current, kvs, err := m.List(last, "0", if honours then LIST_PAGE_SIZE else 0, rev, true);
    ListingStable(h, m.history, last, "0", rev);
    Restart(h, "/", "0", rev, from);
    ok := err == NoError;
    if ok { ListIsPage(kvs, all, from, honours); }
  }

  /** The first page. */
  method FirstPage(m: Memory, honours: bool, ghost all: seq<KeyValue>) returns (rev: nat, kvs: seq<KeyValue>)
    requires m.Valid() && all == Listing(m.history, "/", "0", m.currentRevision)
    ensures rev == m.currentRevision && Due(kvs, map[], all, 0, 0)
  {
    var err;
    rev, kvs, err := m.List("/", "0", if honours then LIST_PAGE_SIZE else 0, 0, true);
    assert all[0..] == all;
    ListIsPage(kvs, all, 0, honours);
  }

  lemma LastPage(kvs: seq<KeyValue>, store: map<string, Lease>, all: seq<KeyValue>, from: nat, n: nat, more: bool)
    requires Progress(kvs, store, all, from, n, more) && (more ==> kvs == [])
    ensures store == RecordOf(all, |all|)
  {
  }

  /** One turn of the loop: record the page, and unless it was short fetch the next. */
  method Turn(m: Memory, kvs: seq<KeyValue>, store: map<string, Lease>, rev: nat, honours: bool, ops: seq<Op>,
              ghost h: seq<Entry>, ghost all: seq<KeyValue>, ghost from: nat, ghost n: nat)
    returns (kvs': seq<KeyValue>, store': map<string, Lease>, more: bool, ok: bool, ghost from': nat, ghost n': nat)
    requires m.Valid() && h <= m.history && rev == |h| && all == Listing(h, "/", "0", rev)
    requires kvs != [] && Due(kvs, store, all, from, n)
    modifies m, set e | e in m.history
    ensures m.Valid() && h <= m.history
    ensures forall e | e in m.history :: e in old(m.history) || fresh(e)
    ensures from < from' <= |all|
    ensures ok ==> Progress(kvs', store', all, from', n', more)
    ensures !ok ==> rev < m.compactRevision
  {
    var last;
    store', last, n' := ProcessPage(kvs, store, all, from, n);
    kvs', more, ok, from' := kvs, false, true, n';
    if |kvs| >= LIST_PAGE_SIZE {
      more, from' := true, n' - 1;
      kvs', ok := NextPage(m, last, rev, honours, ops, h, all, from', store');
    }
  }

  /** The paging loop. */
  method SeedPages(m: Memory, honours: bool, between: seq<seq<Op>>, ghost all: seq<KeyValue>)
    returns (rev: nat, store: map<string, Lease>, ok: bool)
    requires m.Valid() && all == Listing(m.history, "/", "0", m.currentRevision)
    modifies m, set e | e in m.history
    ensures m.Valid() && rev == old(m.currentRevision)
    ensures ok ==> store == RecordOf(all, |all|)
    ensures !ok ==> rev < m.compactRevision
  {
    ghost var h := m.history;
    var kvs;
    rev, kvs := FirstPage(m, honours, all);
    store := map[];
    ghost var from: nat, n: nat := 0, 0;
    var page, more := 0, true;
    while more && |kvs| > 0
      invariant m.Valid() && h <= m.history
      invariant forall e | e in m.history :: e in old(m.history) || fresh(e)
      invariant Progress(kvs, store, all, from, n, more)
      decreases |all| - from
    {
      kvs, store, more, ok, from, n :=
        Turn(m, kvs, store, rev, honours, if page < |between| then between[page] else [], h, all, from, n);
      if !ok {
        return;
      }
      page := page + 1;
    }
    LastPage(kvs, store, all, from, n, more);
    ok := true;
  }

  /** Terminates for any store, and on success every leased key in ["/", "0") at the anchored
      revision is on record, whether or not the backend honours the page size and whatever other
      clients do between pages. It fails only if a compaction has passed the anchored revision. */
  method Seed(m: Memory, honours: bool, between: seq<seq<Op>>) returns (rev: nat, store: map<string, Lease>, ok: bool)
    requires m.Valid()
    modifies m, set e | e in m.history
    ensures m.Valid() && rev == old(m.currentRevision)
    ensures ok ==> var all := Listing(old(m.history), "/", "0", rev); Recorded(store, all, |all|)
    ensures !ok ==> rev < m.compactRevision
  {
    ghost var all := Listing(m.history, "/", "0", m.currentRevision);
    ListingDistinct(m.history, "/", "0", m.currentRevision);
    RecordExact(all, |all|);
    rev, store, ok := SeedPages(m, honours, between, all);
  }
}

/** Listings: the live versions of a range at a revision, sorted by key. */
module MemoryListing {
  import opened Text
  import opened MemoryHistory

  ghost predicate Increasing(ks: seq<string>) {
    forall i, j | 0 <= i < j < |ks| :: Less(ks[i], ks[j])
  }

  /** The live version of k at r, if k lies in the range. */
  ghost function Pick(h: seq<Entry>, k: string, key: string, end: string, r: int): seq<KeyValue> {
    var e := LiveAt(OfKey(h, k), r);
    if Between(k, key, end) && e != null then [e.ToKeyValue()] else []
  }

  /** The live versions of the first n keys that lie in the range. */
  ghost function Collect(ks: seq<string>, n: nat, h: seq<Entry>, key: string, end: string, r: int): seq<KeyValue>
    requires n <= |ks|
  {
    if n == 0 then [] else Collect(ks, n - 1, h, key, end, r) + Pick(h, ks[n - 1], key, end, r)
  }

  ghost predicate Lists(h: seq<Entry>, k: string, key: string, end: string, r: int) {
    Between(k, key, end) && LiveAt(OfKey(h, k), r) != null
  }

  /** l holds the live version of every key of the range, and nothing else, sorted by key. */
  ghost predicate IsListing(l: seq<KeyValue>, h: seq<Entry>, key: string, end: string, r: int) {
    && SortedByKey(l)
    && (forall i | 0 <= i < |l| :: ListedAs(h, l[i], key, end, r))
    && (forall k {:trigger HasKey(l, k)} | Lists(h, k, key, end, r) :: HasKey(l, k))
  }

  ghost predicate SortedByKey(l: seq<KeyValue>) {
    forall i, j | 0 <= i < j < |l| :: Less(l[i].key, l[j].key)
  }

  /** kv is the live version of its key. */
  ghost predicate ListedAs(h: seq<Entry>, kv: KeyValue, key: string, end: string, r: int) {
    Lists(h, kv.key, key, end, r) && kv == LiveAt(OfKey(h, kv.key), r).ToKeyValue()
  }

  ghost predicate HasKey(l: seq<KeyValue>, k: string) {
    exists i :: 0 <= i < |l| && l[i].key == k
  }

  function KeysOf(l: seq<KeyValue>): seq<string> {
    seq(|l|, i requires 0 <= i < |l| => l[i].key)
  }

  ghost predicate SameKeys(a: seq<string>, b: seq<string>) {
    forall k :: k in a <==> k in b
  }

  lemma LastSame(a: seq<string>, b: seq<string>)
    requires Increasing(a) && Increasing(b) && SameKeys(a, b) && a != [] && b != []
    ensures a[|a| - 1] == b[|b| - 1]
  {
    var x, y := a[|a| - 1], b[|b| - 1];
    assert x in b && y in a;
    LessTotal(x, y);
  }

  ghost predicate AllLess(ks: seq<string>, x: string) {
    forall k | k in ks :: Less(k, x)
  }

  lemma IncreasingFront(a: seq<string>, x: string)
    requires Increasing(a + [x])
    ensures Increasing(a) && AllLess(a, x)
  {
    var s := a + [x];
    forall i, j | 0 <= i < j < |a| ensures Less(a[i], a[j]) { assert s[i] == a[i] && s[j] == a[j]; }
    forall i | 0 <= i < |a| ensures Less(a[i], x) { assert s[i] == a[i] && s[|a|] == x; }
  }

  lemma FrontSame(a: seq<string>, b: seq<string>, x: string)
    requires AllLess(a, x) && AllLess(b, x) && SameKeys(a + [x], b + [x])
    ensures SameKeys(a, b)
  {
    LessTotal(x, x);
    forall k ensures k in a <==> k in b {
      assert k in a + [x] <==> k in b + [x];
    }
  }

  lemma EmptySame(a: seq<string>, b: seq<string>)
    requires SameKeys(a, b)
    ensures a == [] <==> b == []
  {
    assert |a| > 0 ==> a[0] in a;
    assert |b| > 0 ==> b[0] in b;
  }

  lemma {:induction false} IncreasingSame(a: seq<string>, b: seq<string>)
    requires Increasing(a) && Increasing(b) && SameKeys(a, b)
    ensures a == b
  {
    EmptySame(a, b);
    if a != [] {
      var n, m := |a| - 1, |b| - 1;
      LastSame(a, b);
      assert a == a[..n] + [a[n]] && b == b[..m] + [a[n]];
      FrontsSame(a[..n], b[..m], a[n]);
      IncreasingSame(a[..n], b[..m]);
    }
  }

  lemma FrontsSame(a: seq<string>, b: seq<string>, x: string)
    requires Increasing(a + [x]) && Increasing(b + [x]) && SameKeys(a + [x], b + [x])
    ensures Increasing(a) && Increasing(b) && SameKeys(a, b)
  {
    IncreasingFront(a, x);
    IncreasingFront(b, x);
    FrontSame(a, b, x);
  }

  /** A range has one listing. */
  lemma ListingUnique(l: seq<KeyValue>, m: seq<KeyValue>, h: seq<Entry>, key: string, end: string, r: int)
    requires IsListing(l, h, key, end, r) && IsListing(m, h, key, end, r)
    ensures l == m
  {
    var a, b := KeysOf(l), KeysOf(m);
    forall k ensures k in a <==> Lists(h, k, key, end, r)
             ensures k in b <==> Lists(h, k, key, end, r)
    {
      KeysListed(l, h, key, end, r, k);
      KeysListed(m, h, key, end, r, k);
    }
    IncreasingSame(a, b);
    assert forall i | 0 <= i < |l| :: a[i] == l[i].key && b[i] == m[i].key;
  }

  lemma KeysListed(l: seq<KeyValue>, h: seq<Entry>, key: string, end: string, r: int, k: string)
    requires IsListing(l, h, key, end, r)
    ensures k in KeysOf(l) <==> Lists(h, k, key, end, r)
  {
    if Lists(h, k, key, end, r) {
      assert HasKey(l, k);
      var i :| 0 <= i < |l| && l[i].key == k;
      assert KeysOf(l)[i] == k;
    }
  }

  /** What is collected over some keys: the live versions of those in the range, sorted by key. */
  ghost predicate Collected(l: seq<KeyValue>, ks: seq<string>, h: seq<Entry>, key: string, end: string, r: int) {
    && SortedByKey(l)
    && (forall i | 0 <= i < |l| :: l[i].key in ks && ListedAs(h, l[i], key, end, r))
    && (forall k {:trigger HasKey(l, k)} | k in ks && Lists(h, k, key, end, r) :: HasKey(l, k))
  }

  lemma CollectedNone(l: seq<KeyValue>, ks: seq<string>, x: string, h: seq<Entry>, key: string, end: string, r: int)
    requires Collected(l, ks, h, key, end, r) && !Lists(h, x, key, end, r)
    ensures Collected(l, ks + [x], h, key, end, r)
  {
  }

  lemma CollectedOne(l: seq<KeyValue>, ks: seq<string>, kv: KeyValue, h: seq<Entry>, key: string, end: string, r: int)
    requires Collected(l, ks, h, key, end, r) && ListedAs(h, kv, key, end, r) && AllLess(ks, kv.key)
    ensures Collected(l + [kv], ks + [kv.key], h, key, end, r)
  {
    var l' := l + [kv];
    forall k | k in ks + [kv.key] && Lists(h, k, key, end, r) ensures HasKey(l', k) {
      if k in ks {
        assert HasKey(l, k);
        var i :| 0 <= i < |l| && l[i].key == k;
        assert l'[i].key == k;
      } else {
        assert l'[|l|].key == k;
      }
    }
  }

  /** Collecting over sorted keys that miss no live key of the range gives the listing. */
  lemma {:induction false} CollectSorted(ks: seq<string>, n: nat, h: seq<Entry>, key: string, end: string, r: int)
    requires Increasing(ks) && Dense(h) && n <= |ks|
    ensures Collected(Collect(ks, n, h, key, end, r), ks[..n], h, key, end, r)
  {
    if n > 0 {
      CollectSorted(ks, n - 1, h, key, end, r);
      FrontBelow(ks, n);
      CollectedNext(Collect(ks, n - 1, h, key, end, r), ks[..n - 1], ks[n - 1], h, key, end, r);
    }
  }

  lemma FrontBelow(ks: seq<string>, n: nat)
    requires Increasing(ks) && 0 < n <= |ks|
    ensures ks[..n] == ks[..n - 1] + [ks[n - 1]] && AllLess(ks[..n - 1], ks[n - 1])
  {
  }

  lemma CollectedNext(l: seq<KeyValue>, ks: seq<string>, x: string, h: seq<Entry>, key: string, end: string, r: int)
    requires Dense(h) && Collected(l, ks, h, key, end, r) && AllLess(ks, x)
    ensures Collected(l + Pick(h, x, key, end, r), ks + [x], h, key, end, r)
  {
    PickKey(h, x, key, end, r);
    if Lists(h, x, key, end, r) {
      CollectedOne(l, ks, Pick(h, x, key, end, r)[0], h, key, end, r);
    } else {
      CollectedNone(l, ks, x, h, key, end, r);
      assert l + [] == l;
    }
  }

  lemma PickKey(h: seq<Entry>, k: string, key: string, end: string, r: int)
    requires Dense(h)
    ensures if Lists(h, k, key, end, r) then
              var p := Pick(h, k, key, end, r); |p| == 1 && p[0].key == k && ListedAs(h, p[0], key, end, r)
            else Pick(h, k, key, end, r) == []
  {
    var full := OfKey(h, k);
    assert Ordered(h);
    OfKeyFacts(h, k);
    FloorFacts(full, r);
  }

  lemma CollectIsListing(ks: seq<string>, h: seq<Entry>, key: string, end: string, r: int)
    requires Increasing(ks) && Dense(h) && forall k | Lists(h, k, key, end, r) :: k in ks
    ensures IsListing(Collect(ks, |ks|, h, key, end, r), h, key, end, r)
  {
    CollectSorted(ks, |ks|, h, key, end, r);
    assert ks[..|ks|] == ks;
  }

  /** Keys out of range add nothing. */
  lemma {:induction false} CollectTail(ks: seq<string>, n: nat, m: nat, h: seq<Entry>, key: string, end: string, r: int)
    requires n <= m <= |ks| && forall i | n <= i < m :: !Between(ks[i], key, end)
    ensures Collect(ks, m, h, key, end, r) == Collect(ks, n, h, key, end, r)
  {
    if n < m { CollectTail(ks, n, m - 1, h, key, end, r); }
  }

  lemma {:induction false} CollectPrefix(ks: seq<string>, n: nat, m: nat, h: seq<Entry>, key: string, end: string,
                                         r: int)
    requires n <= m <= |ks|
    ensures Collect(ks, n, h, key, end, r) <= Collect(ks, m, h, key, end, r)
  {
    if n < m { CollectPrefix(ks, n, m - 1, h, key, end, r); }
  }

  // ----- the keys of a map in order -----

  function Insert(ks: seq<string>, k: string): (r: seq<string>)
    ensures forall x :: x in r <==> x in ks || x == k
  {
    if ks == [] || Less(k, ks[0]) then
      assert forall x :: x in [k] + ks <==> x in ks || x == k;
      [k] + ks
    else if ks[0] == k then ks
    else
      assert ks == [ks[0]] + ks[1..];
      [ks[0]] + Insert(ks[1..], k)
  }

  lemma {:induction false} InsertIncreasing(ks: seq<string>, k: string)
    requires Increasing(ks)
    ensures Increasing(Insert(ks, k))
  {
    if ks == [] {
    } else if Less(k, ks[0]) {
      forall j | 0 <= j < |ks| ensures Less(k, ks[j]) {
        if j > 0 { LessTransitive(k, ks[0], ks[j]); }
      }
    } else if ks[0] != k {
      LessTotal(k, ks[0]);
      InsertIncreasing(ks[1..], k);
      var rest := Insert(ks[1..], k);
      forall j | 0 <= j < |rest| ensures Less(ks[0], rest[j]) {
        assert rest[j] in rest;
      }
    }
  }

  ghost function Sorted(s: set<string>): (ks: seq<string>)
    ensures Increasing(ks) && forall k :: k in ks <==> k in s
  {
    if s == {} then [] else
      var k :| k in s;
      InsertIncreasing(Sorted(s - {k}), k);
      Insert(Sorted(s - {k}), k)
  }

  ghost predicate HasListing(h: seq<Entry>, key: string, end: string, r: int) {
    exists l :: IsListing(l, h, key, end, r)
  }

  /** The listing of a range at a revision. */
  ghost function Listing(h: seq<Entry>, key: string, end: string, r: int): seq<KeyValue> {
    if HasListing(h, key, end, r) then var l :| IsListing(l, h, key, end, r); l else []
  }

  /** There is a listing, and it is the one. */
  lemma ListingCorrect(h: seq<Entry>, key: string, end: string, r: int)
    requires Dense(h)
    ensures IsListing(Listing(h, key, end, r), h, key, end, r)
  {
    var ks := Sorted(set e | e in h :: e.key);
    ListedKeys(h, key, end, r, ks);
    CollectIsListing(ks, h, key, end, r);
    assert HasListing(h, key, end, r);
  }

  lemma ListedKeys(h: seq<Entry>, key: string, end: string, r: int, ks: seq<string>)
    requires Dense(h) && forall e | e in h :: e.key in ks
    ensures forall k | Lists(h, k, key, end, r) :: k in ks
  {
    forall k | Lists(h, k, key, end, r) ensures k in ks {
      assert Ordered(h);
      OfKeyFacts(h, k);
      FloorFacts(OfKey(h, k), r);
    }
  }

  lemma NothingListed(h: seq<Entry>, key: string, end: string, r: int)
    requires Dense(h) && Listing(h, key, end, r) != []
    ensures h != []
  {
    ListingCorrect(h, key, end, r);
    assert ListedAs(h, Listing(h, key, end, r)[0], key, end, r);
  }

  method KeysInOrder(s: set<string>) returns (ks: seq<string>)
    ensures Increasing(ks) && forall k :: k in ks <==> k in s
  {
    ks := [];
    var todo := s;
    while todo != {}
      invariant Increasing(ks) && todo <= s && forall k :: k in ks <==> k in s - todo
      decreases |todo|
    {
      var k :| k in todo;
      InsertIncreasing(ks, k);
      ks, todo := Insert(ks, k), todo - {k};
    }
  }

  // ----- presentation -----

  function ShowOne(kv: KeyValue, keysOnly: bool): KeyValue {
    if keysOnly then kv.(value := "") else kv
  }

  /** kvs are the entries of l, without their values if only keys are asked for. */
  ghost predicate Shows(kvs: seq<KeyValue>, l: seq<KeyValue>, keysOnly: bool) {
    |kvs| == |l| && forall i: nat {:trigger ShowsAt(kvs, l, i, keysOnly)} | i < |kvs| :: ShowsAt(kvs, l, i, keysOnly)
  }

  ghost predicate ShowsAt(kvs: seq<KeyValue>, l: seq<KeyValue>, i: nat, keysOnly: bool)
    requires |kvs| == |l|
  {
    i < |kvs| ==> kvs[i] == ShowOne(l[i], keysOnly)
  }

  function Limited(l: seq<KeyValue>, limit: int): seq<KeyValue> {
    if 0 < limit < |l| then l[..limit] else l
  }

  lemma ShowsAppend(kvs: seq<KeyValue>, a: seq<KeyValue>, one: seq<KeyValue>, b: seq<KeyValue>, keysOnly: bool)
    requires Shows(kvs, a, keysOnly) && Shows(one, b, keysOnly)
    ensures Shows(kvs + one, a + b, keysOnly)
  {
    forall i: nat | i < |kvs + one| ensures ShowsAt(kvs + one, a + b, i, keysOnly) {
      if i < |kvs| { assert ShowsAt(kvs, a, i, keysOnly); } else { assert ShowsAt(one, b, i - |kvs|, keysOnly); }
    }
  }

  lemma ShowsFront(kvs: seq<KeyValue>, l: seq<KeyValue>, n: nat, keysOnly: bool)
    requires Shows(kvs, l, keysOnly) && n <= |l|
    ensures Shows(kvs[..n], l[..n], keysOnly)
  {
    forall i: nat | i < n ensures ShowsAt(kvs[..n], l[..n], i, keysOnly) { assert ShowsAt(kvs, l, i, keysOnly); }
  }

  /** No live key of the range is missing. */
  ghost predicate Covers(ks: seq<string>, h: seq<Entry>, key: string, end: string, r: int) {
    forall k | Lists(h, k, key, end, r) :: k in ks
  }

  /** The entries shown for the first i keys. */
  ghost predicate Scanned(ks: seq<string>, i: nat, h: seq<Entry>, key: string, end: string, r: int, keysOnly: bool,
                          kvs: seq<KeyValue>) {
    i <= |ks| && Shows(kvs, Collect(ks, i, h, key, end, r), keysOnly)
  }

  lemma ScanStep(ks: seq<string>, i: nat, h: seq<Entry>, key: string, end: string, r: int, keysOnly: bool,
                 kvs: seq<KeyValue>, one: seq<KeyValue>)
    requires Scanned(ks, i, h, key, end, r, keysOnly, kvs) && i < |ks|
    requires Shows(one, Pick(h, ks[i], key, end, r), keysOnly)
    ensures Scanned(ks, i + 1, h, key, end, r, keysOnly, kvs + one)
  {
    ShowsAppend(kvs, Collect(ks, i, h, key, end, r), one, Pick(h, ks[i], key, end, r), keysOnly);
  }

  /** Keys before the start of the range add nothing. */
  lemma BeforeRange(ks: seq<string>, n: nat, h: seq<Entry>, key: string, end: string, r: int)
    requires n <= |ks| && forall i | 0 <= i < n :: Less(ks[i], key)
    ensures Collect(ks, n, h, key, end, r) == []
  {
    forall i | 0 <= i < n ensures !Between(ks[i], key, end) { LessTotal(key, key); }
    CollectTail(ks, 0, n, h, key, end, r);
  }

  /** Once a key at or after the start lies outside the range, so do all later ones. */
  lemma AfterRange(ks: seq<string>, n: nat, key: string, end: string)
    requires Increasing(ks) && n < |ks| && !Less(ks[n], key)
    requires if end == "" then ks[n] != key else !Less(ks[n], end)
    ensures forall i | n <= i < |ks| :: !Between(ks[i], key, end)
  {
    forall i | n <= i < |ks| ensures !Between(ks[i], key, end) {
      LessTotal(ks[n], key);
      LessTotal(ks[n], end);
      if i > n && end != "" && Less(ks[i], end) {
        LessTransitive(ks[n], ks[i], end);
      }
      LessTotal(ks[n], ks[i]);
    }
  }

  predicate NotLess(k: string, key: string) {
    !Less(k, key)
  }

  /** No key from index n on lies in the range. */
  ghost predicate NoneLeft(ks: seq<string>, n: nat, key: string, end: string) {
    forall i | n <= i < |ks| :: !Between(ks[i], key, end)
  }

  /** A scan stops after n keys at the limit, or because no later key lies in the range. */
  ghost predicate Stopped(ks: seq<string>, n: nat, key: string, end: string, limit: int, count: nat) {
    || 0 < limit == count
    || ((limit <= 0 || count < limit) && NoneLeft(ks, n, key, end))
  }

  lemma CollectLimited(ks: seq<string>, n: nat, h: seq<Entry>, key: string, end: string, r: int, limit: int)
    requires n <= |ks| && Stopped(ks, n, key, end, limit, |Collect(ks, n, h, key, end, r)|)
    ensures Collect(ks, n, h, key, end, r) == Limited(Collect(ks, |ks|, h, key, end, r), limit)
  {
    if 0 < limit == |Collect(ks, n, h, key, end, r)| {
      CollectPrefix(ks, n, |ks|, h, key, end, r);
    } else {
      CollectTail(ks, n, |ks|, h, key, end, r);
    }
  }

  /** The listing cut short at the limit, or complete. */
  lemma Finished(ks: seq<string>, n: nat, h: seq<Entry>, key: string, end: string, r: int, limit: int, keysOnly: bool,
                 kvs: seq<KeyValue>)
    requires Increasing(ks) && Dense(h) && Covers(ks, h, key, end, r)
    requires Scanned(ks, n, h, key, end, r, keysOnly, kvs)
    requires Stopped(ks, n, key, end, limit, |kvs|)
    ensures Shows(kvs, Limited(Listing(h, key, end, r), limit), keysOnly)
  {
    CollectIsListing(ks, h, key, end, r);
    ListingCorrect(h, key, end, r);
    ListingUnique(Collect(ks, |ks|, h, key, end, r), Listing(h, key, end, r), h, key, end, r);
    CollectLimited(ks, n, h, key, end, r, limit);
  }
}

/** Range requests over the in-memory store: one list, and a count when the page is cut short. */
module PagedList {
  import opened MemoryHistory
  import opened MemoryListing
  import opened Memory

  datatype RangeRequest = RangeRequest(key: string, rangeEnd: string, revision: int, limit: int, countOnly: bool,
      keysOnly: bool)

  datatype RangeResponse = RangeResponse(header: nat, count: nat, more: bool, kvs: seq<KeyValue>)

  datatype Outcome = Answer(resp: RangeResponse) | Failed(err: Error) | InvalidRange

  // ----- later writes do not change an earlier snapshot -----

  lemma {:induction false} OfKeyExtends(h: seq<Entry>, h': seq<Entry>, k: string)
    requires h <= h'
    ensures OfKey(h, k) <= OfKey(h', k)
    ensures forall i | |OfKey(h, k)| <= i < |OfKey(h', k)| :: OfKey(h', k)[i] in h'[|h|..]
    decreases |h'|
  {
    if h == h' {
    } else {
      var front := h'[..|h'| - 1];
      OfKeyExtends(h, front, k);
      assert h'[|h|..] == front[|h|..] + [h'[|h'| - 1]];
    }
  }

  lemma SnapshotStable(h: seq<Entry>, h': seq<Entry>, k: string, r: int)
    requires Dense(h') && h <= h' && r <= |h|
    ensures LiveAt(OfKey(h', k), r) == LiveAt(OfKey(h, k), r)
  {
    assert Dense(h);
    OfKeyBound(h, k);
    OfKeyExtends(h, h', k);
    var full, full' := OfKey(h, k), OfKey(h', k);
    var n := CountUpTo(full, r);
    forall i | |full| <= i < |full'| ensures r < full'[i].revision {
      var j :| 0 <= j < |h'[|h|..]| && h'[|h|..][j] == full'[i];
      assert h'[|h| + j] == full'[i];
    }
    FloorAt(full, r, n);
    FloorAt(full', r, n);
  }

  lemma ListingStable(h: seq<Entry>, h': seq<Entry>, key: string, end: string, r: int)
    requires Dense(h') && h <= h' && r <= |h|
    ensures Dense(h) && Listing(h', key, end, r) == Listing(h, key, end, r)
  {
    assert Dense(h);
    var l, l' := Listing(h, key, end, r), Listing(h', key, end, r);
    ListingCorrect(h, key, end, r);
    ListingCorrect(h', key, end, r);
    forall k ensures LiveAt(OfKey(h', k), r) == LiveAt(OfKey(h, k), r) { SnapshotStable(h, h', k, r); }
    forall k ensures Lists(h', k, key, end, r) == Lists(h, k, key, end, r) { SnapshotStable(h, h', k, r); }
    assert IsListing(l', h, key, end, r);
    ListingUnique(l, l', h, key, end, r);
  }

  /** The page of a listing, whether it is cut short, and the total. */
  ghost predicate Describes(resp: RangeResponse, all: seq<KeyValue>, r: RangeRequest) {
    && resp.count == |all|
    && (resp.more <==> 0 < r.limit < |all|)
    && Shows(resp.kvs, Limited(all, r.limit), r.keysOnly)
  }

  /** The count of a snapshot, taken after other clients have been at work. */
  method Total(m: Memory, key: string, end: string, revision: nat, between: seq<Op>, ghost all: seq<KeyValue>)
    returns (rev: nat, count: nat, err: Error)
    requires m.Valid() && 0 < revision <= m.currentRevision && all == Listing(m.history, key, end, revision)
    modifies m, set e | e in m.history
    ensures m.Valid()
    ensures err == NoError <==> m.compactRevision <= revision
    ensures err == NoError ==> rev == revision && count == |all|
  {
    ghost var h := m.history;
    m.Interfere(between);
    ListingStable(h, m.history, key, end, revision);
    rev, count, err := m.Count(key, end, revision);
  }

  /** A list request, with other clients at work between its two backend calls. An answer describes
      one snapshot, the one its header names. It fails exactly when the revision is out of bounds,
      or when a compaction in between has passed the snapshot and the total is still needed. */
  method List(m: Memory, r: RangeRequest, between: seq<Op>) returns (out: Outcome)
    requires m.Valid()
    modifies m, set e | e in m.history
    ensures m.Valid()
    ensures out.InvalidRange? <==> r.rangeEnd == ""
    ensures var h, at := old(m.history), old(m.At(r.revision));
            var all := Listing(h, r.key, r.rangeEnd, at);
            && (out.Answer? && !r.countOnly ==> out.resp.header == at && Describes(out.resp, all, r))
            && (out.Answer? && r.countOnly ==> out.resp.header == at && out.resp.count == |all|)
            && (r.rangeEnd != "" ==>
                  (out.Failed? <==>
                     || r.revision > old(m.currentRevision) || 0 < r.revision < old(m.compactRevision)
                     || (!r.countOnly && 0 < r.limit < |all| && at < m.compactRevision)))
  {
    if |r.rangeEnd| == 0 {
      return InvalidRange;
    }
    var revision := 0;
    if r.revision > 0 {
      revision := r.revision;
    }
    ghost var h, at := m.history, m.At(r.revision);
    if r.countOnly {
      var rev, count, err := m.Count(r.key, r.rangeEnd, revision);
      return if err == NoError then Answer(RangeResponse(rev, count, false, [])) else Failed(err);
    }
    var limit := r.limit;
    if limit > 0 {
      limit := limit + 1;
    }
    var rev, kvs, err := m.List(r.key, r.rangeEnd, limit, revision, r.keysOnly);
    if err != NoError {
      return Failed(err);
    }
    ghost var all := Listing(h, r.key, r.rangeEnd, at);
    PageFacts(kvs, all, r.limit, r.keysOnly);
    if all != [] { NothingListed(h, r.key, r.rangeEnd, at); }
    if limit > 0 && |kvs| > r.limit {
      out := CutShort(m, r, kvs, if revision == 0 then rev else revision, between, all);
    } else {
      out := Answer(RangeResponse(rev, |kvs|, false, kvs));
    }
  }

  /** A page that is cut short, with the total counted at the revision of the page. */
  method CutShort(m: Memory, r: RangeRequest, kvs: seq<KeyValue>, revision: nat, between: seq<Op>,
                  ghost all: seq<KeyValue>)
    returns (out: Outcome)
    requires m.Valid() && 0 < revision <= m.currentRevision && all == Listing(m.history, r.key, r.rangeEnd, revision)
    requires 0 < r.limit < |kvs| && r.limit < |all| && Shows(kvs[..r.limit], Limited(all, r.limit), r.keysOnly)
    modifies m, set e | e in m.history
    ensures m.Valid() && !out.InvalidRange?
    ensures out.Failed? <==> revision < m.compactRevision
    ensures out.Answer? ==> out.resp.header == revision && Describes(out.resp, all, r)
  {
    var rev, count, err := Total(m, r.key, r.rangeEnd, revision, between, all);
    if err != NoError {
      return Failed(err);
    }
    return Answer(RangeResponse(rev, count, true, kvs[..r.limit]));
  }

  /** Asking for one entry more than the page tells whether the page is cut short. */
  lemma PageFacts(kvs: seq<KeyValue>, all: seq<KeyValue>, limit: int, keysOnly: bool)
    requires Shows(kvs, Limited(all, if limit > 0 then limit + 1 else limit), keysOnly)
    ensures limit > 0 ==> (|kvs| > limit <==> |all| > limit)
    ensures 0 < limit < |kvs| ==> Shows(kvs[..limit], Limited(all, limit), keysOnly)
    ensures !(0 < limit < |kvs|) ==> Shows(kvs, Limited(all, limit), keysOnly) && |kvs| == |all|
  {
    if 0 < limit < |kvs| {
      var got := Limited(all, limit + 1);
      ShowsFront(kvs, got, limit, keysOnly);
      assert got[..limit] == all[..limit];
    }
  }
}

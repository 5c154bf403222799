/** The in-memory store: a log of entries, a history per key, and compaction in place. */
module Memory {
  import opened Options
  import opened Text
  import opened MemoryHistory
  import opened MemoryListing

  datatype Error = NoError | ErrKeyExists | ErrFutureRev | ErrCompacted

  datatype Op =
    | DoCreate(key: string, value: string, lease: int)
    | DoUpdate(key: string, value: string, revision: int, lease: int)
    | DoDelete(key: string, revision: int)
    | DoCompact(compactTo: int)

  datatype Event = Event(create: bool, delete: bool, kv: KeyValue, prevKV: KeyValue)

  ghost predicate IsTail(t: seq<Entry>, h: seq<Entry>) {
    |t| <= |h| && forall i | 0 <= i < |t| :: t[i] == h[|h| - |t| + i]
  }

  /** What is kept of a key is a suffix of its history, cut where MayDrop allows. */
  ghost predicate Kept(full: seq<Entry>, kept: seq<Entry>, c: nat) {
    IsTail(kept, full) && MayDrop(full, |full| - |kept|, c) && Lived(full)
  }

  ghost predicate KeyKept(h: seq<Entry>, kept: seq<Entry>, k: string, c: nat) {
    Kept(OfKey(h, k), kept, c)
  }

  function Hist(keys: map<string, seq<Entry>>, k: string): seq<Entry> {
    if k in keys then keys[k] else []
  }

  ghost predicate KeysKept(h: seq<Entry>, keys: map<string, seq<Entry>>, c: nat) {
    && (forall k | k in keys :: keys[k] != [])
    && (forall k {:trigger KeyKept(h, Hist(keys, k), k, c)} :: KeyKept(h, Hist(keys, k), k, c))
  }

  /** The log is the tail of the history. Every compaction cuts one entry fewer than it moves the
      compact revision, so the log starts at compactRevision + 1 - compactions. */
  ghost predicate LogKept(h: seq<Entry>, log: seq<Entry>, c: nat, compactions: nat) {
    && Dense(h) && c <= |h| && compactions <= c
    && |log| == |h| - c + compactions && IsTail(log, h)
  }

  /** A pointer leads to the previous version of the same key. Only pointers to versions at or below the
      compact revision are missing. */
  ghost predicate LinkOk(e: Entry, h: seq<Entry>, c: nat)
    reads e
  {
    if e.prev == null then e.prevRevision <= c
    else e.prev in h && e.prev.key == e.key && e.prev.revision == e.prevRevision
  }

  ghost predicate Linked(h: seq<Entry>, c: nat)
    reads h
  {
    forall e {:trigger LinkOk(e, h, c)} | e in h :: LinkOk(e, h, c)
  }

  lemma DenseOrdered(h: seq<Entry>)
    requires Dense(h)
    ensures Ordered(h)
  {
  }

  /** The versions of a key are in order and none is newer than the history. */
  lemma OfKeyBound(h: seq<Entry>, k: string)
    requires Dense(h)
    ensures Ordered(OfKey(h, k))
    ensures forall i | 0 <= i < |OfKey(h, k)| ::
              OfKey(h, k)[i] in h && OfKey(h, k)[i].key == k && OfKey(h, k)[i].revision <= |h|
  {
    DenseOrdered(h);
    OfKeyFacts(h, k);
    forall i | 0 <= i < |OfKey(h, k)|
      ensures OfKey(h, k)[i] in h && OfKey(h, k)[i].key == k && OfKey(h, k)[i].revision <= |h|
    {
      assert OfKey(h, k)[i] in OfKey(h, k);
    }
  }

  /** The last kept entry tells whether the key is live now. */
  lemma LastTells(full: seq<Entry>, kept: seq<Entry>, c: nat, now: nat)
    requires Kept(full, kept, c) && (full != [] ==> full[|full| - 1].revision <= now)
    ensures LiveAt(full, now) == if kept != [] && !kept[|kept| - 1].deleted then kept[|kept| - 1] else null
    ensures kept != [] ==> kept[|kept| - 1] == full[|full| - 1]
  {
  }

  /** The last entry, if any. */
  ghost function Last(h: seq<Entry>): Entry? {
    if h == [] then null else h[|h| - 1]
  }

  lemma LatestTells(h: seq<Entry>, kept: seq<Entry>, k: string, c: nat)
    requires Dense(h) && KeyKept(h, kept, k, c)
    ensures LiveAt(OfKey(h, k), |h|) == if kept != [] && !kept[|kept| - 1].deleted then kept[|kept| - 1] else null
    ensures kept != [] ==>
              kept[|kept| - 1] == OfKey(h, k)[|OfKey(h, k)| - 1] && kept[|kept| - 1] in h && kept[|kept| - 1].key == k
  {
    OfKeyBound(h, k);
    LastTells(OfKey(h, k), kept, c, |h|);
  }

  lemma LatestIn(h: seq<Entry>, keys: map<string, seq<Entry>>, k: string, c: nat)
    requires Dense(h) && KeysKept(h, keys, c)
    ensures var kept := Hist(keys, k); kept != [] ==> kept[|kept| - 1] in h && kept[|kept| - 1].key == k
  {
    assert KeyKept(h, Hist(keys, k), k, c);
    LatestTells(h, Hist(keys, k), k, c);
  }

  class Memory {
    var currentRevision: nat
    var compactRevision: nat
    var log: seq<Entry>
    var keys: map<string, seq<Entry>>

    ghost var history: seq<Entry>  // every entry ever appended
    ghost var compactions: nat

    /** The state between taking `taken` revisions and appending their entries. */
    ghost predicate Good(taken: nat)
      reads this, history
    {
      && currentRevision == |history| + taken
      && LogKept(history, log, compactRevision, compactions)
      && KeysKept(history, keys, compactRevision)
      && Linked(history, compactRevision)
    }

    ghost predicate Valid()
      reads this, history
    {
      Good(0)
    }

    /** The live version of a key at revision r, as the uncompacted history has it. */
    ghost function Live(k: string, r: int): Entry?
      reads this
    {
      LiveAt(OfKey(history, k), r)
    }

    constructor ()
      ensures Valid() && history == [] && compactRevision == 0 && compactions == 0
    {
      currentRevision, compactRevision, log, keys := 0, 0, [], map[];
      history, compactions := [], 0;
    }

    /** Appends an entry that carries the revision just taken, and links it to its predecessor. */
    method AppendEntry(e: Entry)
      requires Good(1) && e !in history && e.revision == currentRevision && e.prev == null
      requires MayAppend(history, e)
      requires var kept := Hist(keys, e.key); e.prevRevision == if kept != [] then kept[|kept| - 1].revision else 0
      modifies this`log, this`keys, this`history, e`prev
      ensures Valid() && history == old(history) + [e]
    {
      var hist := Hist(keys, e.key);
      ghost var h, keys0 := history, keys;
      LatestIn(h, keys, e.key, compactRevision);
      log := log + [e];
      if |hist| > 0 {
        e.prev := hist[|hist| - 1];
      }
      keys := keys[e.key := hist + [e]];
      history := history + [e];
      forall x | x in history ensures LinkOk(x, history, compactRevision) {
        assert x != e ==> old(LinkOk(x, h, compactRevision));
      }
      AppendKeys(h, keys0, keys, compactRevision, e);
      AppendLog(h, old(log), compactRevision, compactions, e);
    }

    lemma LatestOf(k: string)
      requires Good(0) || Good(1)
      ensures var kept := Hist(keys, k);
              && KeyKept(history, kept, k, compactRevision)
              && Live(k, |history|) == (if kept != [] && !kept[|kept| - 1].deleted then kept[|kept| - 1] else null)
              && (kept != [] ==> kept[|kept| - 1] in history && kept[|kept| - 1].key == k)
              && var last := Last(OfKey(history, k)); if kept == [] then last == null || last.deleted
                  else last == kept[|kept| - 1]
    {
      assert KeyKept(history, Hist(keys, k), k, compactRevision);
      LatestTells(history, Hist(keys, k), k, compactRevision);
    }

    /** Creates the key unless it is live. */
    method Create(key: string, value: string, lease: int) returns (rev: nat, err: Error)
      requires Valid()
      modifies this`currentRevision, this`log, this`keys, this`history
      ensures Valid() && err in {NoError, ErrKeyExists} && rev == currentRevision
      ensures err == ErrKeyExists <==> old(Live(key, currentRevision)) != null
      ensures err != NoError ==> history == old(history)
      ensures err == NoError ==>
                && |history| == old(|history|) + 1 && history[..old(|history|)] == old(history) &&
                    fresh(history[old(|history|)])
                && history[old(|history|)].created
                && history[old(|history|)].ToKeyValue() == KeyValue(key, value, rev, rev, 1, lease)
    {
      LatestOf(key);
      var hist := Hist(keys, key);
      if |hist| > 0 && !hist[|hist| - 1].deleted {
        return currentRevision, ErrKeyExists;
      }
      var prevRev := if |hist| > 0 then hist[|hist| - 1].revision else 0;
      currentRevision := currentRevision + 1;
      rev := currentRevision;
      var e := new Entry(KeyValue(key, value, rev, rev, 1, lease), prevRev, true, false, null);
      AppendEntry(e);
      err := NoError;
    }

    /** Replaces the live version if it is the one the caller names. */
    method Update(key: string, value: string, revision: int, lease: int)
      returns (rev: nat, kv: Option<KeyValue>, ok: bool)
      requires Valid()
      modifies this`currentRevision, this`log, this`keys, this`history
      ensures Valid() && rev == currentRevision
      ensures var cur := old(Live(key, currentRevision));
              && (ok <==> cur != null && cur.revision == revision)
              && (!ok ==> history == old(history) && kv == if cur == null then None else Some(cur.ToKeyValue()))
              && (ok ==>
                    && |history| == old(|history|) + 1 && history[..old(|history|)] == old(history)
                    && fresh(history[old(|history|)])
                    && !history[old(|history|)].created && !history[old(|history|)].deleted
                    && history[old(|history|)].ToKeyValue() ==
                        KeyValue(key, value, cur.createRevision, rev, cur.version + 1, lease)
                    && kv == Some(history[old(|history|)].ToKeyValue()))
    {
      LatestOf(key);
      var hist := Hist(keys, key);
      if |hist| == 0 || hist[|hist| - 1].deleted {
        return currentRevision, None, false;
      }
      var latest := hist[|hist| - 1];
      if latest.revision != revision {
        return currentRevision, Some(latest.ToKeyValue()), false;
      }
      currentRevision := currentRevision + 1;
      rev := currentRevision;
      var e := new Entry(KeyValue(key, value, latest.createRevision, rev, latest.version + 1, lease),
          latest.revision, false, false, null);
      AppendEntry(e);
      kv, ok := Some(e.ToKeyValue()), true;
    }

    /** Deletes the live version if it is the one the caller names, or any when the caller names none. */
    method Delete(key: string, revision: int) returns (rev: nat, kv: Option<KeyValue>, ok: bool)
      requires Valid()
      modifies this`currentRevision, this`log, this`keys, this`history
      ensures Valid() && rev == currentRevision
      ensures var cur := old(Live(key, currentRevision));
              && (ok <==> cur != null && (revision == 0 || cur.revision == revision))
              && kv == (if cur == null then None else Some(cur.ToKeyValue()))
              && (!ok ==> history == old(history))
              && (ok ==>
                    && |history| == old(|history|) + 1 && history[..old(|history|)] == old(history)
                    && fresh(history[old(|history|)])
                    && history[old(|history|)].deleted && !history[old(|history|)].created
                    && history[old(|history|)].ToKeyValue() == cur.ToKeyValue().(modRevision := rev))
    {
      LatestOf(key);
      var hist := Hist(keys, key);
      if |hist| == 0 || hist[|hist| - 1].deleted {
        return currentRevision, None, false;
      }
      var latest := hist[|hist| - 1];
      if revision != 0 && latest.revision != revision {
        return currentRevision, Some(latest.ToKeyValue()), false;
      }
      currentRevision := currentRevision + 1;
      rev := currentRevision;
      var e := new Entry(latest.ToKeyValue().(modRevision := rev), latest.revision, false, true, null);
      AppendEntry(e);
      kv, ok := Some(latest.ToKeyValue()), true;
    }

    /** The latest entry kept for the key at or before the revision. From the compact revision on,
        it is live exactly when the uncompacted history has that same live version there. */
    method AtRevision(key: string, revision: int) returns (e: Entry?)
      requires Valid()
      ensures e == Floor(Hist(keys, key), revision)
      ensures compactRevision <= revision ==>
                Live(key, revision) == if e != null && !e.deleted then e else null
    {
      assert KeyKept(history, Hist(keys, key), key, compactRevision);
      e := FloorEntry(Hist(keys, key), revision, key, history, compactRevision);
    }

    /** Moves the compact revision up, trims every key to what readers from there on need, and
        cuts the log. The history, and with it every legal read, stays as it was. */
    method Compact(revision: int) returns (rev: nat, err: Error)
      requires Valid()
      modifies this`compactRevision, this`compactions, this`log, this`keys, set e | e in history
      ensures Valid() && currentRevision == old(currentRevision) && history == old(history)
      ensures err in {NoError, ErrFutureRev, ErrCompacted}
      ensures err == ErrFutureRev <==> revision > currentRevision
      ensures err == ErrCompacted <==> revision <= old(compactRevision)
      ensures err != NoError ==>
                log == old(log) && keys == old(keys) && compactRevision == old(compactRevision) &&
                compactions == old(compactions)
      ensures err == NoError ==>
                && rev == currentRevision && compactRevision == revision && compactions == old(compactions) + 1
                && (forall k :: Hist(keys, k) == Trimmed(Hist(old(keys), k), revision))
                && LogCut(old(log), log, revision + 1 - compactions)
    {
      if revision > currentRevision {
        return 0, ErrFutureRev;
      }
      if revision <= compactRevision {
        return 0, ErrCompacted;
      }
      Advance(revision);
      return currentRevision, NoError;
    }

    /** The work of a compaction to a legal revision. */
    method Advance(revision: nat)
      requires Valid() && compactRevision < revision <= currentRevision
      modifies this`compactRevision, this`compactions, this`log, this`keys, set e | e in history
      ensures Valid()
      ensures compactRevision == revision && compactions == old(compactions) + 1
      ensures forall k :: Hist(keys, k) == Trimmed(Hist(old(keys), k), revision)
      ensures LogCut(old(log), log, revision + 1 - compactions)
    {
      ghost var keys0 := keys;
      forall e | e in history ensures LinkOk(e, history, revision) {
        assert LinkOk(e, history, compactRevision);
      }
      TrimKeys(revision);
      CompactKeys(history, keys0, keys, compactRevision, revision);
      log := CutLog(log, revision, compactRevision, history, compactions);
      compactRevision := revision;
      compactions := compactions + 1;
    }

    /** One key of the scan: its history from the floor on, unless nothing is left of it. */
    method TrimKey(k: string, revision: nat) returns (empty: bool)
      requires Dense(history) && Linked(history, revision) && k in keys && KeyKept(history, keys[k], k, compactRevision)
      modifies this`keys, set e | e in history
      ensures empty <==> Trimmed(old(keys)[k], revision) == []
      ensures keys == if empty then old(keys) else old(keys)[k := Trimmed(old(keys)[k], revision)]
      ensures Linked(history, revision)
    {
      var hist := keys[k];
      var newHist := CutHistory(hist, revision, history, k, compactRevision);
      empty := |newHist| == 0;
      if !empty && |newHist| != |hist| {
        newHist[0].prev := null;
        keys := keys[k := newHist];
        forall e | e in history ensures LinkOk(e, history, revision) {
          assert old(LinkOk(e, history, revision));
        }
      } else if !empty {
        assert keys[k := hist] == keys;
      }
    }

    /** The scan over all keys, with the pointers to dropped versions cleared. */
    method TrimKeys(revision: nat)
      requires Dense(history) && KeysKept(history, keys, compactRevision) && Linked(history, revision)
      modifies this`keys, set e | e in history
      ensures forall k | k in keys :: keys[k] != []
      ensures forall k :: Hist(keys, k) == Trimmed(Hist(old(keys), k), revision)
      ensures Linked(history, revision)
    {
      var todo, toRemove: set<string> := keys.Keys, {};
      ghost var keys0 := keys;
      while todo != {}
        invariant PartTrimmed(keys0, keys, todo, toRemove, revision)
        invariant Linked(history, revision)
        decreases |todo|
      {
        var k :| k in todo;
        assert KeyKept(history, Hist(keys0, k), k, compactRevision);
        ghost var before := keys;
        var empty := TrimKey(k, revision);
        PartStep(keys0, before, todo, toRemove, revision, k);
        todo := todo - {k};
        if empty {
          toRemove := toRemove + {k};
        }
      }
      PartDone(keys0, keys, toRemove, revision);
      keys := keys - toRemove;
    }

    /** The revision a list request reads at. */
    ghost function At(revision: int): int
      reads this
    {
      if revision > 0 then revision else currentRevision
    }

    /** The live versions of [key, end) (or of key alone) at the revision, sorted by key and cut at
        the limit: the same answer the uncompacted history gives. */
    method List(key: string, end: string, limit: int, revision: int, keysOnly: bool)
      returns (rev: nat, kvs: seq<KeyValue>, err: Error)
      requires Valid()
      ensures err in {NoError, ErrFutureRev, ErrCompacted}
      ensures err == ErrFutureRev <==> revision > currentRevision
      ensures err == ErrCompacted <==> 0 < revision < compactRevision
      ensures err != NoError ==> rev == currentRevision && kvs == []
      ensures err == NoError ==>
                rev == At(revision) && Shows(kvs, Limited(Listing(history, key, end, At(revision)), limit), keysOnly)
    {
      rev := currentRevision;
      if revision > 0 {
        if revision > rev {
          return rev, [], ErrFutureRev;
        }
        if revision < compactRevision {
          return rev, [], ErrCompacted;
        }
        rev := revision;
      }
      kvs := ListKeys(keys, key, end, limit, revision, keysOnly, history, compactRevision, At(revision));
      err := NoError;
    }

    method Count(key: string, end: string, revision: int) returns (rev: nat, count: nat, err: Error)
      requires Valid()
      ensures err in {NoError, ErrFutureRev, ErrCompacted}
      ensures err == ErrFutureRev <==> revision > currentRevision
      ensures err == ErrCompacted <==> 0 < revision < compactRevision
      ensures err == NoError ==> rev == At(revision) && count == |Listing(history, key, end, At(revision))|
      ensures err != NoError ==> rev == currentRevision && count == 0
    {
      var kvs;
      rev, kvs, err := List(key, end, 0, revision, true);
      count := |kvs|;
    }

    /** One operation of another client. */
    method Perform(op: Op)
      requires Valid()
      modifies this, set e | e in history
      ensures Valid() && old(history) <= history && old(compactRevision) <= compactRevision
      ensures forall e | e in history :: e in old(history) || fresh(e)
      ensures old(compactions) <= compactions
      ensures compactions == old(compactions) ==> compactRevision == old(compactRevision)
      ensures old(compactRevision) - old(compactions) <= compactRevision - compactions
    {
      match op {
        case DoCreate(key, value, lease) => { var _, _ := Create(key, value, lease); }
        case DoUpdate(key, value, revision, lease) => { var _, _, _ := Update(key, value, revision, lease); }
        case DoDelete(key, revision) => { var _, _, _ := Delete(key, revision); }
        case DoCompact(revision) => { var _, _ := Compact(revision); }
      }
    }

    /** Other clients at work: any sequence of operations, compactions included. */
    method Interfere(ops: seq<Op>)
      requires Valid()
      modifies this, set e | e in history
      ensures Valid() && old(history) <= history && old(compactRevision) <= compactRevision
      ensures forall e | e in history :: e in old(history) || fresh(e)
      ensures old(compactions) <= compactions
      ensures compactions == old(compactions) ==> compactRevision == old(compactRevision)
      ensures old(compactRevision) - old(compactions) <= compactRevision - compactions
    {
      for i := 0 to |ops|
        invariant Valid() && old(history) <= history && old(compactRevision) <= compactRevision
        invariant forall e | e in history :: e in old(history) || fresh(e)
        invariant old(compactions) <= compactions
        invariant compactions == old(compactions) ==> compactRevision == old(compactRevision)
        invariant old(compactRevision) - old(compactions) <= compactRevision - compactions
      {
        Perform(ops[i]);
      }
    }

    /** Every version a reader may see, at every legal revision: the entries that are kept give the
        live version of the full history, and its create revision and version count from the
        create that started its lifetime. */
    lemma ReadsCorrect(k: string, r: int) returns (birth: nat, i: nat)
      requires Valid() && compactRevision <= r <= currentRevision
      ensures LiveAt(Hist(keys, k), r) == Live(k, r)
      ensures Live(k, r) != null ==>
                var full := OfKey(history, k);
                && birth <= i < |full| && full[i] == Live(k, r) && full[birth].created
                && (forall j | birth < j <= i :: !full[j].created) && (forall j | birth <= j <= i :: !full[j].deleted)
                && full[i].createRevision == full[birth].revision && full[i].version == i - birth + 1
    {
      birth, i := 0, 0;
      assert KeyKept(history, Hist(keys, k), k, compactRevision);
      KeptAt(history, Hist(keys, k), k, compactRevision, r);
      if Live(k, r) != null {
        birth, i := LifetimeAt(history, Hist(keys, k), k, compactRevision, r);
      }
    }

    /** The first log index a watcher that has seen `rev` reads from. */
    function LogIndexAfter(rev: int): (i: nat)
      reads this
      ensures i <= |log|
    {
      var i := rev - compactRevision;
      if i < 0 then 0 else if i > |log| then |log| else i
    }

    /** One pass of a watcher over the log: an event for every matching entry from its index on. Its
        previous version is given in full, or by its revision alone if that is not above the compact
        revision. */
    method WatchPass(key: string, end: string, lastSeen: int) returns (batch: seq<Event>, seen: int)
      requires Valid()
      ensures Reports(batch, EventsOf(log[LogIndexAfter(lastSeen)..], key, end))
      ensures forall i | 0 <= i < |batch| :: PrevOk(batch[i], history, compactRevision)
      ensures seen == if LogIndexAfter(lastSeen) < |log| then currentRevision else lastSeen
    {
      var start := LogIndexAfter(lastSeen);
      assert forall e | e in log :: e in history;
      batch, seen := ReadFrom(log, start, key, end, lastSeen, history, compactRevision);
    }

    /** A pass reads exactly the entries newer than what was seen if and only if nothing has been
        compacted yet, or the watcher is so far behind that everything kept is new to it, or so far
        ahead that it reads nothing. After k compactions it otherwise reads up to k entries again. */
    lemma PassExact(lastSeen: int)
      requires Valid()
      ensures log[LogIndexAfter(lastSeen)..] == NewerThan(log, lastSeen) <==>
                compactions == 0 || lastSeen + compactions <= compactRevision ||
                    currentRevision + compactions <= lastSeen
      // and it never skips one that is kept
      ensures |NewerThan(log, lastSeen)| <= |log|
      ensures NewerThan(log, lastSeen) == log[|log| - |NewerThan(log, lastSeen)|..]
      ensures LogIndexAfter(lastSeen) <= |log| - |NewerThan(log, lastSeen)|
      ensures |log| - |NewerThan(log, lastSeen)| - LogIndexAfter(lastSeen) <= compactions
    {
      NewerAt(history, log, compactRevision, compactions, lastSeen);
      var i, n := LogIndexAfter(lastSeen), FirstNewer(log, compactRevision, compactions, lastSeen);
      SameTail(log, i, n);
    }
  }

  // ----- lemmas about the class -----

  /** The events of the entries that match a watch. */
  predicate Matches(key: string, end: string, k: string) {
    key == "" || (end != "" && !Less(k, key) && Less(k, end)) || k == key
  }

  /** A watch of a range sees exactly the keys that a list of it lists, unless the range is inverted; without a key
      it sees all. */
  lemma MatchesRange(key: string, end: string, k: string)
    ensures key == "" ==> Matches(key, end, k)
    ensures key != "" && (end == "" || Less(key, end)) ==> (Matches(key, end, k) <==> Between(k, key, end))
    ensures key != "" && end != "" && !Less(key, end) ==> (Matches(key, end, k) <==> k == key)
  {
    LessTotal(key, key);
    LessTotal(k, key);
    if !Less(k, key) && Less(k, end) && k != key { LessTransitive(key, k, end); }
  }

  /** All that is left of a previous version whose link was cut. */
  function Stub(revision: nat): KeyValue {
    KeyValue("", "", 0, revision, 0, 0)
  }

  function Strip(e: Event): Event {
    e.(prevKV := Stub(e.prevKV.modRevision))
  }

  /** The events are these, previous versions aside. */
  ghost predicate Reports(events: seq<Event>, plain: seq<Event>) {
    |events| == |plain| && forall i | 0 <= i < |events| :: Strip(events[i]) == plain[i]
  }

  /** The previous version of an event is a version of its key. Only one that is not above revision c
      may be a stub. */
  ghost predicate PrevOk(e: Event, h: seq<Entry>, c: nat) {
    || (e.prevKV == Stub(e.prevKV.modRevision) && e.prevKV.modRevision <= c)
    || exists p :: p in h && p.key == e.kv.key && p.ToKeyValue() == e.prevKV
  }

  function EventOf(e: Entry): Event {
    Event(e.created, e.deleted, e.ToKeyValue(), Stub(e.prevRevision))
  }

  function EventsOf(entries: seq<Entry>, key: string, end: string): seq<Event> {
    if entries == [] then []
    else
      var e := entries[|entries| - 1];
      EventsOf(entries[..|entries| - 1], key, end) + (if Matches(key, end, e.key) then [EventOf(e)] else [])
  }

  lemma EventsNext(log: seq<Entry>, start: nat, i: nat, key: string, end: string)
    requires start <= i < |log|
    ensures EventsOf(log[start..i + 1], key, end) ==
              EventsOf(log[start..i], key, end) + if Matches(key, end, log[i].key) then [EventOf(log[i])] else []
  {
    assert log[start..i + 1][..i - start] == log[start..i];
  }

  /** The event of an entry, with as much of its previous version as is left. */
  method EventFor(e: Entry, ghost h: seq<Entry>, ghost c: nat) returns (event: Event)
    requires Linked(h, c) && e in h
    ensures Strip(event) == EventOf(e) && PrevOk(event, h, c)
  {
    assert LinkOk(e, h, c);
    var prevKV := Stub(e.prevRevision);
    if e.prev != null {
      prevKV := e.prev.ToKeyValue();
    }
    event := Event(e.created, e.deleted, e.ToKeyValue(), prevKV);
  }

  /** The loop of a pass, from an index of the log on. */
  method ReadFrom(log: seq<Entry>, start: nat, key: string, end: string, lastSeen: int, ghost h: seq<Entry>,
                  ghost c: nat)
    returns (batch: seq<Event>, seen: int)
    requires start <= |log| && Linked(h, c) && forall e | e in log :: e in h
    ensures Reports(batch, EventsOf(log[start..], key, end))
    ensures forall i | 0 <= i < |batch| :: PrevOk(batch[i], h, c)
    ensures seen == if start < |log| then log[|log| - 1].revision else lastSeen
  {
    batch, seen := [], lastSeen;
    for i := start to |log|
      invariant Reports(batch, EventsOf(log[start..i], key, end))
      invariant forall j | 0 <= j < |batch| :: PrevOk(batch[j], h, c)
      invariant seen == if i == start then lastSeen else log[i - 1].revision
    {
      var e := log[i];
      assert e in log;
      if Matches(key, end, e.key) {
        var event := EventFor(e, h, c);
        batch := batch + [event];
      }
      EventsNext(log, start, i, key, end);
      seen := e.revision;
    }
    assert log[start..|log|] == log[start..];
  }

  ghost function NewerThan(entries: seq<Entry>, rev: int): seq<Entry> {
    if entries == [] then []
    else NewerThan(entries[..|entries| - 1], rev) +
         (if entries[|entries| - 1].revision > rev then [entries[|entries| - 1]] else [])
  }

  lemma {:induction false} NewerFrom(entries: seq<Entry>, rev: int, n: nat)
    requires n <= |entries| && (forall i | 0 <= i < n :: entries[i].revision <= rev)
    requires (forall i | n <= i < |entries| :: rev < entries[i].revision)
    ensures NewerThan(entries, rev) == entries[n..]
    decreases |entries|
  {
    if entries != [] {
      var front := entries[..|entries| - 1];
      NewerFrom(front, rev, if n < |entries| then n else n - 1);
      if n < |entries| { assert front[n..] + [entries[|entries| - 1]] == entries[n..]; }
    }
  }

  /** Where the entries newer than a revision begin. */
  ghost function FirstNewer(log: seq<Entry>, c: nat, compactions: nat, rev: int): (n: nat)
    ensures n <= |log|
  {
    var f := rev - (c - compactions);
    if f < 0 then 0 else if f > |log| then |log| else f
  }

  lemma NewerAt(h: seq<Entry>, log: seq<Entry>, c: nat, compactions: nat, rev: int)
    requires LogKept(h, log, c, compactions)
    ensures NewerThan(log, rev) == log[FirstNewer(log, c, compactions, rev)..]
  {
    assert forall i | 0 <= i < |log| :: log[i].revision == c - compactions + 1 + i;
    NewerFrom(log, rev, FirstNewer(log, c, compactions, rev));
  }

  lemma SameTail(log: seq<Entry>, i: nat, n: nat)
    requires i <= |log| && n <= |log|
    ensures log[i..] == log[n..] <==> i == n
  {
    assert |log[i..]| == |log| - i && |log[n..]| == |log| - n;
  }

  lemma NotBefore(ks: seq<string>, first: nat, i: nat, key: string)
    requires Increasing(ks) && first <= i < |ks| && !Less(ks[first], key)
    ensures !Less(ks[i], key)
  {
    if first < i && Less(ks[i], key) { LessTransitive(ks[first], ks[i], key); }
  }

  /** Every key that is live at a legal revision still has entries. */
  lemma KeptListed(h: seq<Entry>, keys: map<string, seq<Entry>>, c: nat, key: string, end: string, r: int)
    requires Dense(h) && KeysKept(h, keys, c) && c <= r
    ensures forall k | Lists(h, k, key, end, r) :: k in keys.Keys
  {
    forall k | Lists(h, k, key, end, r) ensures k in keys.Keys {
      assert KeyKept(h, Hist(keys, k), k, c);
      KeptAt(h, Hist(keys, k), k, c, r);
    }
  }

  /** The loop of atRevision over one key's entries. */
  method FloorEntry(hist: seq<Entry>, revision: int, ghost k: string, ghost h: seq<Entry>, ghost c: nat)
    returns (e: Entry?)
    requires Dense(h) && KeyKept(h, hist, k, c)
    ensures e == Floor(hist, revision)
    ensures c <= revision ==> LiveAt(OfKey(h, k), revision) == if e != null && !e.deleted then e else null
  {
    KeptReads(h, hist, k, c);
    e := null;
    var i := 0;
    while i < |hist|
      invariant 0 <= i <= |hist| && e == (if i == 0 then null else hist[i - 1])
      invariant forall j | 0 <= j < i :: hist[j].revision <= revision
    {
      if hist[i].revision <= revision {
        e := hist[i];
      } else {
        break;
      }
      i := i + 1;
    }
    FloorAt(hist, revision, i);
    if c <= revision {
      KeptAt(h, hist, k, c, revision);
    }
  }

  /** What a list shows of one key: its entry at the revision, or its latest, if live. */
  method Show(hist: seq<Entry>, k: string, key: string, end: string, revision: int, keysOnly: bool,
              ghost h: seq<Entry>, ghost c: nat, ghost at: nat) returns (one: seq<KeyValue>)
    requires Dense(h) && KeyKept(h, hist, k, c) && c <= at && at == (if revision > 0 then revision else |h|)
    requires Between(k, key, end)
    ensures Shows(one, Pick(h, k, key, end, at), keysOnly) && |one| <= 1
  {
    var e: Entry? := null;
    if revision > 0 {
      e := FloorEntry(hist, revision, k, h, c);
    } else if |hist| > 0 {
      e := hist[|hist| - 1];
    }
    LatestTells(h, hist, k, c);
    one := [];
    if e != null && !e.deleted {
      var kv := e.ToKeyValue();
      if keysOnly {
        kv := kv.(value := "");
      }
      one := [kv];
    }
  }

  /** One key of a list: past the range, or its entry joins the answer. */
  method Visit(keys: map<string, seq<Entry>>, ks: seq<string>, ghost first: nat, i: nat, key: string, end: string,
               revision: int,
               keysOnly: bool, kvs: seq<KeyValue>, ghost h: seq<Entry>, ghost c: nat, ghost at: nat)
    returns (past: bool, kvs': seq<KeyValue>)
    requires Dense(h) && KeysKept(h, keys, c) && c <= at && at == (if revision > 0 then revision else |h|)
    requires Increasing(ks) && first <= i < |ks| && NotLess(ks[first], key)
    requires Scanned(ks, i, h, key, end, at, keysOnly, kvs)
    ensures past ==> kvs' == kvs && NoneLeft(ks, i, key, end)
    ensures !past ==> Scanned(ks, i + 1, h, key, end, at, keysOnly, kvs') && |kvs'| <= |kvs| + 1
  {
    var k := ks[i];
    NotBefore(ks, first, i, key);
    if (end == "" && k != key) || (end != "" && !Less(k, end)) {
      AfterRange(ks, i, key, end);
      return true, kvs;
    }
    assert KeyKept(h, Hist(keys, k), k, c);
    var one := Show(Hist(keys, k), k, key, end, revision, keysOnly, h, c, at);
    ScanStep(ks, i, h, key, end, at, keysOnly, kvs, one);
    return false, kvs + one;
  }

  /** The iteration over the keys from the first one at or after the start of the range. */
  method Scan(keys: map<string, seq<Entry>>, ks: seq<string>, first: nat, key: string, end: string, limit: int,
              revision: int,
              keysOnly: bool, ghost h: seq<Entry>, ghost c: nat, ghost at: nat) returns (kvs: seq<KeyValue>,
                  ghost n: nat)
    requires Dense(h) && KeysKept(h, keys, c) && c <= at && at == (if revision > 0 then revision else |h|)
    requires Increasing(ks) && first <= |ks| && (first < |ks| ==> NotLess(ks[first], key))
    requires Scanned(ks, first, h, key, end, at, keysOnly, [])
    ensures Scanned(ks, n, h, key, end, at, keysOnly, kvs) && Stopped(ks, n, key, end, limit, |kvs|)
  {
    kvs := [];
    var i := first;
    while i < |ks|
      invariant first <= i <= |ks|
      invariant Scanned(ks, i, h, key, end, at, keysOnly, kvs)
      invariant limit <= 0 || |kvs| < limit
    {
      var past;
      past, kvs := Visit(keys, ks, first, i, key, end, revision, keysOnly, kvs, h, c, at);
      if past {
        break;
      }
      i := i + 1;
      if limit > 0 && |kvs| >= limit {
        break;
      }
    }
    n := i;
  }

  /** The index of the first key at or after the start of a range. */
  method FirstKey(ks: seq<string>, key: string) returns (i: nat)
    ensures i <= |ks| && (forall j | 0 <= j < i :: Less(ks[j], key)) && (i < |ks| ==> NotLess(ks[i], key))
  {
    i := 0;
    while i < |ks| && Less(ks[i], key)
      invariant i <= |ks| && forall j | 0 <= j < i :: Less(ks[j], key)
    {
      i := i + 1;
    }
  }

  /** The listing of the kept entries is that of the history. */
  method ListKeys(keys: map<string, seq<Entry>>, key: string, end: string, limit: int, revision: int, keysOnly: bool,
                  ghost h: seq<Entry>, ghost c: nat, ghost at: nat) returns (kvs: seq<KeyValue>)
    requires Dense(h) && KeysKept(h, keys, c) && c <= at && at == (if revision > 0 then revision else |h|)
    ensures Shows(kvs, Limited(Listing(h, key, end, at), limit), keysOnly)
  {
    var ks := KeysInOrder(keys.Keys);
    var first := FirstKey(ks, key);
    BeforeRange(ks, first, h, key, end, at);
    ghost var n;
    kvs, n := Scan(keys, ks, first, key, end, limit, revision, keysOnly, h, c, at);
    KeptListed(h, keys, c, key, end, at);
    Finished(ks, n, h, key, end, at, limit, keysOnly, kvs);
  }

  lemma KeptReads(h: seq<Entry>, kept: seq<Entry>, k: string, c: nat)
    requires Dense(h) && KeyKept(h, kept, k, c)
    ensures Ordered(kept) && forall e | e in kept :: e in h && e.key == k
  {
    OfKeyBound(h, k);
    var full := OfKey(h, k);
    forall e | e in kept ensures e in h && e.key == k {
      var i :| 0 <= i < |kept| && kept[i] == e;
      assert full[|full| - |kept| + i] == e;
    }
  }

  /** Reading the kept entries at a revision from the compact revision on. */
  lemma KeptAt(h: seq<Entry>, kept: seq<Entry>, k: string, c: nat, r: int)
    requires Dense(h) && KeyKept(h, kept, k, c) && c <= r
    ensures LiveAt(OfKey(h, k), r) == LiveAt(kept, r)
  {
    OfKeyBound(h, k);
    var full := OfKey(h, k);
    assert kept == full[|full| - |kept|..];
    DropInvisible(full, |full| - |kept|, c, r);
  }

  /** The lifetime of the version that is live at a revision. */
  lemma LifetimeAt(h: seq<Entry>, kept: seq<Entry>, k: string, c: nat, r: int) returns (birth: nat, i: nat)
    requires Dense(h) && KeyKept(h, kept, k, c) && LiveAt(OfKey(h, k), r) != null
    ensures var full := OfKey(h, k);
            && birth <= i < |full| && full[i] == LiveAt(full, r) && full[birth].created
            && (forall j | birth < j <= i :: !full[j].created) && (forall j | birth <= j <= i :: !full[j].deleted)
            && full[i].createRevision == full[birth].revision && full[i].version == i - birth + 1
  {
    OfKeyBound(h, k);
    var full := OfKey(h, k);
    FloorFacts(full, r);
    i :| 0 <= i < |full| && full[i] == LiveAt(full, r);
    LifetimeCorrect(full, i);
    birth := Birth(full, i);
  }

  /** What compaction keeps of one key: from its floor on, or from after it if that is a tombstone. */
  ghost function Trimmed(hist: seq<Entry>, r: nat): seq<Entry> {
    CutAt(hist, Below(hist, r))
  }

  function CutAt(hist: seq<Entry>, n: nat): seq<Entry>
    requires n <= |hist|
  {
    if n == 0 then hist else if hist[n - 1].deleted then hist[n..] else hist[n - 1..]
  }

  /** The number of leading entries at or below r. */
  ghost function Below(hist: seq<Entry>, r: int): (n: nat)
    ensures n <= |hist|
  {
    if hist == [] || r < hist[0].revision then 0 else 1 + Below(hist[1..], r)
  }

  lemma {:induction false} BelowAt(hist: seq<Entry>, r: int, n: nat)
    requires n <= |hist| && (forall i | 0 <= i < n :: hist[i].revision <= r) && (n < |hist| ==> r < hist[n].revision)
    ensures Below(hist, r) == n
  {
    if n > 0 { BelowAt(hist[1..], r, n - 1); }
  }

  lemma TrimmedAt(hist: seq<Entry>, r: nat, n: nat)
    requires n <= |hist| && (forall i | 0 <= i < n :: hist[i].revision <= r) && (n < |hist| ==> r < hist[n].revision)
    ensures Trimmed(hist, r) == CutAt(hist, n)
  {
    BelowAt(hist, r, n);
  }

  /** The keys scanned so far are trimmed or marked for removal, the others untouched. */
  ghost predicate PartTrimmed(keys0: map<string, seq<Entry>>, keys: map<string, seq<Entry>>, todo: set<string>,
                              gone: set<string>, r: nat) {
    && todo <= keys0.Keys == keys.Keys && gone <= keys0.Keys - todo
    && (forall k | k in todo :: keys[k] == keys0[k])
    && (forall k | k in keys0 && k !in todo ::
          if k in gone then Trimmed(keys0[k], r) == [] else keys[k] == Trimmed(keys0[k], r) && keys[k] != [])
  }

  lemma PartStep(keys0: map<string, seq<Entry>>, keys: map<string, seq<Entry>>, todo: set<string>, gone: set<string>,
                 r: nat, k: string)
    requires PartTrimmed(keys0, keys, todo, gone, r) && k in todo
    ensures var t := Trimmed(keys0[k], r);
            if t == [] then PartTrimmed(keys0, keys, todo - {k}, gone + {k}, r)
            else PartTrimmed(keys0, keys[k := t], todo - {k}, gone, r)
  {
  }

  lemma PartDone(keys0: map<string, seq<Entry>>, keys: map<string, seq<Entry>>, gone: set<string>, r: nat)
    requires PartTrimmed(keys0, keys, {}, gone, r)
    ensures forall k :: Hist(keys - gone, k) == Trimmed(Hist(keys0, k), r)
    ensures forall k | k in keys - gone :: (keys - gone)[k] != []
  {
  }

  /** What is left of one key's entries. */
  method CutHistory(hist: seq<Entry>, revision: nat, ghost h: seq<Entry>, ghost k: string, ghost c: nat)
    returns (newHist: seq<Entry>)
    requires Dense(h) && KeyKept(h, hist, k, c)
    ensures newHist == Trimmed(hist, revision) && (|newHist| == |hist| ==> newHist == hist)
    ensures newHist != [] ==> newHist[0] in h
    ensures newHist != [] && |newHist| != |hist| ==> newHist[0].prevRevision <= revision
  {
    KeptReads(h, hist, k, c);
    var floorIdx := FloorIndex(hist, revision);
    newHist := CutAt(hist, floorIdx + 1);
    TrimmedAt(hist, revision, floorIdx + 1);
    CutFrom(hist, floorIdx + 1);
    if newHist != [] && |newHist| != |hist| {
      CutBelow(OfKey(h, k), hist, c, revision, floorIdx + 1);
    }
  }

  /** What a cut leaves first was preceded by a version at or below the revision of the cut. */
  lemma CutBelow(full: seq<Entry>, kept: seq<Entry>, c: nat, r: nat, n: nat)
    requires Kept(full, kept, c) && n <= |kept| && forall i | 0 <= i < n :: kept[i].revision <= r
    requires CutAt(kept, n) != [] && |CutAt(kept, n)| != |kept|
    ensures CutAt(kept, n)[0].prevRevision <= r
  {
    var d := if kept[n - 1].deleted then n else n - 1;
    var i := |full| - |kept| + d;
    assert CutAt(kept, n)[0] == kept[d];
    assert kept[d] == full[i] && kept[d - 1] == full[i - 1];
    assert Follows(Prior(full, i), full[i]);
  }

  lemma CutFrom(hist: seq<Entry>, n: nat)
    requires n <= |hist|
    ensures var cut := CutAt(hist, n); (cut != [] ==> cut[0] in hist) && (|cut| == |hist| ==> cut == hist)
  {
  }

  method FloorIndex(hist: seq<Entry>, revision: nat) returns (floorIdx: int)
    ensures -1 <= floorIdx < |hist|
    ensures forall i | 0 <= i <= floorIdx :: hist[i].revision <= revision
    ensures floorIdx + 1 < |hist| ==> revision < hist[floorIdx + 1].revision
  {
    floorIdx := -1;
    var i := 0;
    while i < |hist|
      invariant 0 <= i <= |hist| && floorIdx == i - 1
      invariant forall j | 0 <= j < i :: hist[j].revision <= revision
    {
      if hist[i].revision <= revision {
        floorIdx := i;
      } else {
        break;
      }
      i := i + 1;
    }
  }

  lemma BelowBounds(hist: seq<Entry>, r: nat)
    requires Ordered(hist)
    ensures var n := Below(hist, r);
            (forall i | 0 <= i < n :: hist[i].revision <= r) && (forall i | n <= i < |hist| :: r < hist[i].revision)
  {
    var n := CountUpTo(hist, r);
    BelowAt(hist, r, n);
  }

  lemma CutKept(full: seq<Entry>, kept: seq<Entry>, c: nat, r: nat, n: nat)
    requires Kept(full, kept, c) && c <= r && n <= |kept|
    requires forall i | 0 <= i < n :: kept[i].revision <= r
    ensures Kept(full, CutAt(kept, n), r)
  {
    var d, t := |full| - |kept|, CutAt(kept, n);
    if t != kept {
      var cut := |kept| - |t|;
      assert kept[cut - 1] == full[d + cut - 1];
      if cut < |kept| { assert kept[cut] == full[d + cut]; }
    }
  }

  lemma TrimKept(full: seq<Entry>, kept: seq<Entry>, c: nat, r: nat)
    requires Ordered(full) && Kept(full, kept, c) && c <= r
    ensures Kept(full, Trimmed(kept, r), r)
  {
    assert Ordered(kept) by {
      assert forall i | 0 <= i < |kept| :: kept[i] == full[|full| - |kept| + i];
    }
    BelowBounds(kept, r);
    CutKept(full, kept, c, r, Below(kept, r));
  }

  lemma CompactKeys(h: seq<Entry>, keys: map<string, seq<Entry>>, keys': map<string, seq<Entry>>, c: nat, r: nat)
    requires Dense(h) && KeysKept(h, keys, c) && c <= r && (forall k | k in keys' :: keys'[k] != [])
    requires forall k :: Hist(keys', k) == Trimmed(Hist(keys, k), r)
    ensures KeysKept(h, keys', r)
  {
    forall k ensures KeyKept(h, Hist(keys', k), k, r) {
      assert KeyKept(h, Hist(keys, k), k, c);
      OfKeyBound(h, k);
      TrimKept(OfKey(h, k), Hist(keys, k), c, r);
    }
  }

  /** A log cut at the front down to an entry that carries the given revision. */
  ghost predicate LogCut(log: seq<Entry>, log': seq<Entry>, first: int) {
    0 < |log'| <= |log| && log' == log[|log| - |log'|..] && log'[0].revision == first
  }

  /** Cuts the log one entry short of the new compact revision. */
  method CutLog(log: seq<Entry>, revision: nat, compactRevision: nat, ghost h: seq<Entry>, ghost compactions: nat)
    returns (log': seq<Entry>)
    requires LogKept(h, log, compactRevision, compactions) && compactRevision < revision <= |h|
    ensures LogKept(h, log', revision, compactions + 1) && LogCut(log, log', revision - compactions)
  {
    var cut := revision - compactRevision - 1;
    log' := log;
    if cut > 0 {
      log' := log[cut..];
    }
    assert log' == h[|h| - |log| + cut..];
  }

  lemma AppendLived(full: seq<Entry>, e: Entry)
    requires Lived(full) && Follows(Last(full), e)
    ensures Lived(full + [e])
  {
    var full' := full + [e];
    forall i | 0 <= i < |full'| ensures Follows(Prior(full', i), full'[i]) {
      if i < |full| {
        assert Follows(Prior(full, i), full[i]);
        assert Prior(full', i) == Prior(full, i) && full'[i] == full[i];
      }
    }
  }

  lemma AppendOne(full: seq<Entry>, kept: seq<Entry>, c: nat, e: Entry)
    requires Kept(full, kept, c) && Follows(Last(full), e)
    ensures Kept(full + [e], kept + [e], c)
  {
    AppendLived(full, e);
    assert kept + [e] == (full + [e])[|full| - |kept|..];
  }

  /** The entry follows the last one of its key. */
  ghost predicate MayAppend(h: seq<Entry>, e: Entry) {
    Follows(Last(OfKey(h, e.key)), e)
  }

  lemma AppendKept(h: seq<Entry>, kept: seq<Entry>, k: string, c: nat, e: Entry)
    requires Dense(h) && KeyKept(h, kept, k, c)
    requires k == e.key ==> MayAppend(h, e)
    ensures KeyKept(h + [e], if k == e.key then kept + [e] else kept, k, c)
  {
    OfKeyAppend(h, e, k);
    OfKeyBound(h, k);
    if k == e.key {
      AppendOne(OfKey(h, k), kept, c, e);
    } else {
      assert OfKey(h, k) + [] == OfKey(h, k);
    }
  }

  lemma AppendKey(h: seq<Entry>, keys: map<string, seq<Entry>>, keys': map<string, seq<Entry>>, c: nat, e: Entry,
                  k: string)
    requires Dense(h) && KeyKept(h, Hist(keys, k), k, c) && MayAppend(h, e)
    requires keys' == keys[e.key := Hist(keys, e.key) + [e]]
    ensures KeyKept(h + [e], Hist(keys', k), k, c)
  {
    assert Hist(keys', k) == if k == e.key then Hist(keys, k) + [e] else Hist(keys, k);
    AppendKept(h, Hist(keys, k), k, c, e);
  }

  lemma AppendKeys(h: seq<Entry>, keys: map<string, seq<Entry>>, keys': map<string, seq<Entry>>, c: nat, e: Entry)
    requires Dense(h) && KeysKept(h, keys, c) && MayAppend(h, e)
    requires keys' == keys[e.key := Hist(keys, e.key) + [e]]
    ensures KeysKept(h + [e], keys', c)
  {
    forall k ensures KeyKept(h + [e], Hist(keys', k), k, c) {
      assert KeyKept(h, Hist(keys, k), k, c);
      AppendKey(h, keys, keys', c, e, k);
    }
  }

  lemma AppendLog(h: seq<Entry>, log: seq<Entry>, c: nat, compactions: nat, e: Entry)
    requires LogKept(h, log, c, compactions) && e.revision == |h| + 1
    ensures LogKept(h + [e], log + [e], c, compactions)
  {
    assert log + [e] == (h + [e])[|h| - |log|..];
  }
}

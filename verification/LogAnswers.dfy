/** What clients are told: the replies to operations that are refused, and the rows of a list. */
module LogAnswers {
  import opened Kine
  import opened LogInvariant
  import opened LogMachine
  import opened LogTheorems
  import opened Options
  import opened Text

  // ----- refused operations -----

  /** What the caller of a refused operation gets: the key-exists error, or a version and a flag. */
  datatype Reply = KeyExists | Reply(kv: Option<KeyValue>, ok: bool)

  function ReplyOf(d: Decision): Reply
    requires !d.Append?
  {
    match d
    case ErrKeyExists => KeyExists
    case NotFound => Reply(None, false)
    case AlreadyAbsent => Reply(None, true)
    case AlreadyDeleted => Reply(None, false)
    case Conflict(current) => Reply(Some(current.kv), false)
  }

  /** A refused create reports the error, any other refused operation the live version if there is one. Only
      a delete of a key without a visible row counts as done. */
  lemma RefusedReplies(s: State, op: Op)
    requires Inv(s) && ClientKey(op.key) && !Allowed(View(s.log), op)
    ensures !Decide(s.rows, op).Append?
    ensures var view, reply := View(s.log), ReplyOf(Decide(s.rows, op));
            if op.Create? then reply.KeyExists?
            else
              && reply.Reply? && reply.kv == (if op.key in view then Some(view[op.key].kv) else None)
              && (reply.ok <==> op.Delete? && forall i | i in s.rows :: s.rows[i].name != op.key)
  {
    AnswersAreTrue(s, op);
  }

  // ----- lists -----

  /** Exactly the rows a list at revision r is to return: of each name in the range, the row with the highest id
      up to r, unless that is a tombstone and tombstones are not asked for. */
  lemma ListExact(t: Table, key: string, end: string, r: nat, includeDeleted: bool, i: nat)
    ensures i in ListAt(t, key, end, r, includeDeleted) <==>
              && i in t && i <= r && (includeDeleted || !t[i].deleted)
              && (forall j | j in t && t[j].name == t[i].name :: !(i < j <= r))
              && (if end == "" then t[i].name == key else !Less(t[i].name, key) && Less(t[i].name, end))
    ensures i in ListAt(t, key, end, r, includeDeleted) ==>
              var e, row := ListAt(t, key, end, r, includeDeleted)[i], t[i];
              && e.kv.key == row.name && e.kv.value == row.value && e.kv.lease == row.lease && e.kv.modRev == i
              && e.kv.createRev == (if row.created then i else row.createRev)
              && e.create == row.created && e.delete == row.deleted
  {
  }

  /** No name is listed twice. */
  lemma ListedOnce(t: Table, key: string, end: string, r: nat, includeDeleted: bool, i: nat, j: nat)
    requires i in ListAt(t, key, end, r, includeDeleted) && j in ListAt(t, key, end, r, includeDeleted)
    requires t[i].name == t[j].name
    ensures i == j
  {
  }

  /** A list at the highest revision, or at a later one, is the current state of the range. */
  lemma ListIsView(t: Table, key: string, end: string, r: nat, name: string)
    requires 0 !in t && MaxId(t) <= r
    ensures (exists i :: i in ListAt(t, key, end, r, false) && ListAt(t, key, end, r, false)[i].kv.key == name) <==>
              name in View(t) && if end == "" then name == key else !Less(name, key) && Less(name, end)
    ensures forall i | i in ListAt(t, key, end, r, false) && ListAt(t, key, end, r, false)[i].kv.key == name ::
              name in View(t) && ListAt(t, key, end, r, false)[i] == View(t)[name]
  {
    var l, p := ListAt(t, key, end, r, false), Latest(t, name);
    assert forall i | i in t.Keys :: i <= MaxId(t);
    ViewAt(t, name);
    forall i | i in l && l[i].kv.key == name
      ensures name in View(t) && l[i] == View(t)[name] && Between(name, key, end)
    {
      LatestTip(t, name, i);
    }
    if name in View(t) && Between(name, key, end) { assert p in l && l[p].kv.key == name; }
  }

  /** The list a client gets from the table is that of the store the log stands for. */
  lemma ListIsStore(s: State, key: string, end: string, r: nat, name: string)
    requires Inv(s) && MaxId(s.rows) <= r
    ensures var l := ListAt(s.rows, key, end, r, false);
            && ((exists i :: i in l && l[i].kv.key == name) <==>
                  name in View(s.log) && if end == "" then name == key else !Less(name, key) && Less(name, end))
            && (forall i | i in l && l[i].kv.key == name :: name in View(s.log) && l[i] == View(s.log)[name])
  {
    ListIsView(s.rows, key, end, r, name);
    ViewInvisible(s);
  }

  datatype Listed = ErrFutureRev | ErrCompacted | Rows(rev: nat, rows: map<nat, Event>)

  /** A list request at node k. Each row of the result carries the current and the compact revision; an empty
      result makes the node fall back on its cached revision, or on the table while it has none. */
  ghost function ListRequest(s: State, k: nat, key: string, end: string, revision: nat): Listed
    requires k in s.nodes
  {
    var rows := ListAt(s.rows, key, end, if revision == 0 then MaxId(s.rows) else revision, false);
    var cached := s.nodes[k].currentRev;
    var rev := if rows == map[] && cached != 0 then cached else MaxId(s.rows);
    if revision > rev then ErrFutureRev
    else if revision > 0 && revision < CompactRev(s.rows) then ErrCompacted
    else Rows(rev, rows)
  }

  /** What a list request answers is what it would answer had nothing ever been compacted. */
  lemma ListedIsTrue(s: State, k: nat, key: string, end: string, revision: nat)
    requires Inv(s) && k in s.nodes && ListRequest(s, k, key, end, revision).Rows?
    ensures var l := ListRequest(s, k, key, end, revision).rows;
            if revision > 0 then l == ListAt(s.log, key, end, revision, false)
            else forall name ::
                   && ((exists i :: i in l && l[i].kv.key == name) <==>
                         name in View(s.log) && if end == "" then name == key else !Less(name, key) && Less(name, end))
                   && (forall i | i in l && l[i].kv.key == name :: name in View(s.log) && l[i] == View(s.log)[name])
  {
    if revision > 0 {
      ListInvisible(s, key, end, revision);
    } else {
      forall name {
        ListIsStore(s, key, end, MaxId(s.rows), name);
      }
    }
  }

  /** When a request for a revision that exists fails: it has been compacted, or the range is empty there
      and the cached revision of the node lags behind. */
  lemma ListFails(s: State, k: nat, key: string, end: string, revision: nat)
    requires Inv(s) && k in s.nodes && revision <= MaxId(s.rows)
    ensures var l, cached := ListRequest(s, k, key, end, revision), s.nodes[k].currentRev;
            && (l.ErrFutureRev? <==> 0 < cached < revision && ListAt(s.rows, key, end, revision, false) == map[])
            && (l.ErrCompacted? <==> !l.ErrFutureRev? && 0 < revision < CompactRev(s.rows))
  {
  }
}

/** The SQL log as a concurrent protocol. Any number of nodes share one table. A write is a
    read, a decision, the load of the cached revision, the reservation of an id, an insert that
    the primary key and the (name, prev_revision) index may refuse, and a compare-and-swap on
    the cached revision; each is a step of its own. Every node may poll, fill gaps and compact.

    `log` is a history variable: the reserved row and every row a client write ever committed,
    never compacted. Gap fills are not part of it. */
module LogMachine {
  import opened Kine
  import opened Compaction
  import opened Options

  // ----- client operations -----

  datatype Op =
    | Create(key: string, value: string, lease: int)
    | Update(key: string, value: string, rev: nat, lease: int)
    | Delete(key: string, rev: nat)

  datatype Decision =
    | Append(row: Row)
    | ErrKeyExists
    | NotFound                 // nothing to update
    | AlreadyAbsent            // nothing to delete, reported as deleted
    | AlreadyDeleted           // a tombstone, reported as not deleted
    | Conflict(current: Event) // another version is current

  /** What an operation does with the row it reads. The row it wants to append still lacks the
      old value, which the insert statement itself looks up. */
  function Decide(t: Table, op: Op): Decision {
    var p := Latest(t, op.key);
    var live := p in t && !t[p].deleted;
    match op
    case Create(key, value, lease) =>
      if live then ErrKeyExists
      else Append(Row(key, true, false, 0, p, lease, value, ""))
    case Update(key, value, rev, lease) =>
      if !live then NotFound
      else if p != rev then Conflict(Scan(p, t[p]))
      else Append(Row(key, false, false, CreateRev(p, t[p]), p, lease, value, ""))
    case Delete(key, rev) =>
      if p !in t then AlreadyAbsent
      else if t[p].deleted then AlreadyDeleted
      else if rev != 0 && p != rev then Conflict(Scan(p, t[p]))
      else Append(Row(key, false, true, 0, p, 0, "", ""))
  }

  /** SELECT value FROM kine WHERE id = prev */
  function OldValue(t: Table, prev: nat): string {
    if prev in t then t[prev].value else ""
  }

  /** The names clients may use: not the reserved row, not the fill prefix. */
  predicate ClientKey(name: string) {
    name != COMPACT_REV_KEY && !IsFill(name)
  }

  // ----- state -----

  datatype Stage =
    | Decided
    | Loaded(cur: nat)
    | Reserved(cur: nat, id: nat)
    | Committed(cur: nat, id: nat)

  datatype Writer = Writer(node: nat, op: Op, row: Row, stage: Stage)

  /** A batch the poller has read but not yet handed to the broadcaster. */
  datatype Pending = Pending(rev: nat, batch: seq<Event>, cas: bool)

  /** One server: its cached revision, lazy initialisations in flight, and its poll loop.
      `sent` is everything handed to the broadcaster. */
  datatype Node = Node(currentRev: nat, lazy: set<nat>, polling: bool, pollStart: nat, pollRev: nat,
                       polledRev: nat, pending: Option<Pending>, sent: seq<Event>)

  datatype State = State(rows: Table, log: Table, next: nat, writers: map<nat, Writer>, nodes: map<nat, Node>)

  const RESERVED_ID: nat := 1

  /** A fresh database after start-up has appended the reserved row. */
  const FIRST_ROW := Row(COMPACT_REV_KEY, true, false, 0, 0, 0, "", "")
  const INIT := State(map[RESERVED_ID := FIRST_ROW], map[RESERVED_ID := FIRST_ROW], 2, map[], map[])

  /** The table without its gap fills. */
  ghost function Core(rows: Table): Table {
    map i | i in rows && !IsFill(rows[i].name) :: rows[i]
  }

  /** The last revision the poller has read. */
  function Passed(n: Node): nat {
    if n.pending.Some? then n.pending.value.rev else n.pollRev
  }

  // ----- steps -----

  datatype Step =
    | Join(node: nat)
    | Read(writer: nat, node: nat, op: Op)
    | Load(writer: nat)
    | Reserve(writer: nat)
    | Retry(writer: nat)
    | Commit(writer: nat)
    | Abort(writer: nat)
    | CasAppend(writer: nat)
    | LazyRead(node: nat)
    | LazyCas(node: nat, rev: nat)
    | StartPoll(node: nat)
    | Publish(node: nat)
    | Query(node: nat, rev: nat)
    | CasPoll(node: nat)
    | Send(node: nat)
    | Fill(node: nat)
    | Compact(from: nat, target: int, minRetain: nat)

  ghost predicate HasStage(s: State, w: nat) {
    w in s.writers && s.writers[w].node in s.nodes
  }

  ghost predicate Polls(s: State, k: nat) {
    k in s.nodes && s.nodes[k].polling
  }

  ghost function SetStage(s: State, w: nat, stage: Stage): State
    requires w in s.writers
  {
    s.(writers := s.writers[w := s.writers[w].(stage := stage)])
  }

  ghost function SetNode(s: State, k: nat, n: Node): State {
    s.(nodes := s.nodes[k := n])
  }

  function Cas(cell: nat, expected: nat, new_: nat): nat {
    if cell == expected then new_ else cell
  }

  // a server starts

  ghost function DoJoin(s: State, k: nat): State {
    SetNode(s, k, Node(0, {}, false, 0, 0, 0, None, []))
  }

  // a write: read, load the cached revision, reserve an id, insert, publish the cached revision

  ghost predicate CanRead(s: State, w: nat, k: nat, op: Op) {
    w !in s.writers && k in s.nodes && ClientKey(op.key) && Decide(s.rows, op).Append?
  }

  ghost function DoRead(s: State, w: nat, k: nat, op: Op): State
    requires CanRead(s, w, k, op)
  {
    s.(writers := s.writers[w := Writer(k, op, Decide(s.rows, op).row, Decided)])
  }

  ghost predicate CanLoad(s: State, w: nat) {
    HasStage(s, w) && s.writers[w].stage.Decided?
  }

  ghost function DoLoad(s: State, w: nat): State
    requires CanLoad(s, w)
  {
    SetStage(s, w, Loaded(s.nodes[s.writers[w].node].currentRev))
  }

  /** A first reservation, or another one after the reserved id turned out to be in use. */
  ghost predicate CanReserve(s: State, w: nat, again: bool) {
    HasStage(s, w) && if again then s.writers[w].stage.Reserved? && s.writers[w].stage.id in s.rows
                      else s.writers[w].stage.Loaded?
  }

  ghost function DoReserve(s: State, w: nat): State
    requires CanReserve(s, w, true) || CanReserve(s, w, false)
  {
    SetStage(s, w, Reserved(s.writers[w].stage.cur, s.next)).(next := s.next + 1)
  }

  /** Neither the primary key nor the unique index objects. */
  ghost predicate CanCommit(s: State, w: nat) {
    && HasStage(s, w) && s.writers[w].stage.Reserved?
    && s.writers[w].stage.id !in s.rows
    && !Taken(s.rows, s.writers[w].row.name, s.writers[w].row.prev)
  }

  /** The row the insert statement stores, with the old value it looked up. */
  ghost function NewRow(rows: Table, w: Writer): Row {
    w.row.(oldValue := OldValue(rows, w.row.prev))
  }

  ghost function DoCommit(s: State, w: nat): State
    requires CanCommit(s, w)
  {
    var id, row := s.writers[w].stage.id, NewRow(s.rows, s.writers[w]);
    SetStage(s, w, Committed(s.writers[w].stage.cur, id)).(rows := s.rows[id := row], log := s.log[id := row])
  }

  /** The insert is refused, fails, or the client goes away. */
  ghost predicate CanAbort(s: State, w: nat) {
    HasStage(s, w) && !s.writers[w].stage.Committed?
  }

  ghost function DoAbort(s: State, w: nat): State {
    s.(writers := s.writers - {w})
  }

  ghost predicate CanCasAppend(s: State, w: nat) {
    HasStage(s, w) && s.writers[w].stage.Committed?
  }

  ghost function DoCasAppend(s: State, w: nat): State
    requires CanCasAppend(s, w)
  {
    var k, st := s.writers[w].node, s.writers[w].stage;
    SetNode(s, k, s.nodes[k].(currentRev := Cas(s.nodes[k].currentRev, st.cur, st.id))).(writers := s.writers - {w})
  }

  // the cached revision, initialised lazily

  ghost predicate CanLazyRead(s: State, k: nat) {
    k in s.nodes && s.nodes[k].currentRev == 0
  }

  ghost function DoLazyRead(s: State, k: nat): State
    requires CanLazyRead(s, k)
  {
    SetNode(s, k, s.nodes[k].(lazy := s.nodes[k].lazy + {MaxId(s.rows)}))
  }

  ghost predicate CanLazyCas(s: State, k: nat, rev: nat) {
    k in s.nodes && rev in s.nodes[k].lazy
  }

  ghost function DoLazyCas(s: State, k: nat, rev: nat): State
    requires CanLazyCas(s, k, rev)
  {
    SetNode(s, k, s.nodes[k].(lazy := s.nodes[k].lazy - {rev}, currentRev := Cas(s.nodes[k].currentRev, 0, rev)))
  }

  // the poll loop: publish the polled revision, query, publish the cached revision, send; or fill

  ghost predicate CanStartPoll(s: State, k: nat) {
    k in s.nodes && !s.nodes[k].polling
  }

  ghost function DoStartPoll(s: State, k: nat): State
    requires CanStartPoll(s, k)
  {
    SetNode(s, k, s.nodes[k].(polling := true, pollStart := MaxId(s.rows), pollRev := MaxId(s.rows)))
  }

  ghost predicate CanPublish(s: State, k: nat) {
    Polls(s, k) && s.nodes[k].pending.None?
  }

  ghost function DoPublish(s: State, k: nat): State
    requires CanPublish(s, k)
  {
    SetNode(s, k, s.nodes[k].(polledRev := s.nodes[k].pollRev))
  }

  /** Rows pollRev+1 .. rev are all visible: a run the poller passes. */
  ghost predicate CanQuery(s: State, k: nat, rev: nat) {
    && Polls(s, k) && s.nodes[k].pending.None? && s.nodes[k].pollRev < rev
    && forall i | s.nodes[k].pollRev < i <= rev :: i in s.rows
  }

  ghost function DoQuery(s: State, k: nat, rev: nat): State
    requires CanQuery(s, k, rev)
  {
    SetNode(s, k, s.nodes[k].(pending := Some(Pending(rev, Span(s.rows, s.nodes[k].pollRev, rev), false))))
  }

  ghost predicate CanCasPoll(s: State, k: nat) {
    Polls(s, k) && s.nodes[k].pending.Some? && !s.nodes[k].pending.value.cas
  }

  ghost function DoCasPoll(s: State, k: nat): State
    requires CanCasPoll(s, k)
  {
    var n := s.nodes[k];
    SetNode(s, k, n.(currentRev := Cas(n.currentRev, n.pollRev, n.pending.value.rev),
                     pending := Some(n.pending.value.(cas := true))))
  }

  ghost predicate CanSend(s: State, k: nat) {
    Polls(s, k) && s.nodes[k].pending.Some? && s.nodes[k].pending.value.cas
  }

  ghost function DoSend(s: State, k: nat): State
    requires CanSend(s, k)
  {
    var n := s.nodes[k];
    SetNode(s, k, n.(pollRev := n.pending.value.rev, sent := n.sent + n.pending.value.batch, pending := None))
  }

  /** The row after the last one read is missing although a later id was seen. The later row may be gone
      by now, and what has been read before the gap need not have been sent yet. */
  ghost predicate CanFill(s: State, k: nat) {
    && Polls(s, k)
    && Passed(s.nodes[k]) + 1 !in s.rows
    && Passed(s.nodes[k]) + 1 < s.next
    && !Taken(s.rows, FillRow(Passed(s.nodes[k]) + 1).name, 0)
  }

  ghost function DoFill(s: State, k: nat): State
    requires CanFill(s, k)
  {
    var id := Passed(s.nodes[k]) + 1;
    s.(rows := s.rows[id := FillRow(id)])
  }

  // compaction

  ghost predicate CanCompact(s: State, from: nat, r: nat) {
    from == CompactRev(s.rows) && from < r
  }

  ghost function DoCompact(s: State, r: nat): State {
    s.(rows := CompactTo(s.rows, r))
  }

  // dispatch

  ghost function Target(s: State, step: Step): nat
    requires step.Compact?
  {
    SafeCompactRev(step.target, MaxId(s.rows), step.minRetain)
  }

  ghost predicate Enabled(s: State, step: Step) {
    match step
    case Join(k) => k !in s.nodes
    case Read(w, k, op) => CanRead(s, w, k, op)
    case Load(w) => CanLoad(s, w)
    case Reserve(w) => CanReserve(s, w, false)
    case Retry(w) => CanReserve(s, w, true)
    case Commit(w) => CanCommit(s, w)
    case Abort(w) => CanAbort(s, w)
    case CasAppend(w) => CanCasAppend(s, w)
    case LazyRead(k) => CanLazyRead(s, k)
    case LazyCas(k, rev) => CanLazyCas(s, k, rev)
    case StartPoll(k) => CanStartPoll(s, k)
    case Publish(k) => CanPublish(s, k)
    case Query(k, rev) => CanQuery(s, k, rev)
    case CasPoll(k) => CanCasPoll(s, k)
    case Send(k) => CanSend(s, k)
    case Fill(k) => CanFill(s, k)
    case Compact(from, _, _) => CanCompact(s, from, Target(s, step))
  }

  ghost function Apply(s: State, step: Step): State
    requires Enabled(s, step)
  {
    match step
    case Join(k) => DoJoin(s, k)
    case Read(w, k, op) => DoRead(s, w, k, op)
    case Load(w) => DoLoad(s, w)
    case Reserve(w) => DoReserve(s, w)
    case Retry(w) => DoReserve(s, w)
    case Commit(w) => DoCommit(s, w)
    case Abort(w) => DoAbort(s, w)
    case CasAppend(w) => DoCasAppend(s, w)
    case LazyRead(k) => DoLazyRead(s, k)
    case LazyCas(k, rev) => DoLazyCas(s, k, rev)
    case StartPoll(k) => DoStartPoll(s, k)
    case Publish(k) => DoPublish(s, k)
    case Query(k, rev) => DoQuery(s, k, rev)
    case CasPoll(k) => DoCasPoll(s, k)
    case Send(k) => DoSend(s, k)
    case Fill(k) => DoFill(s, k)
    case Compact(_, _, _) => DoCompact(s, Target(s, step))
  }

  // ----- what a compaction may disturb -----

  /** A pending write is refused by the index, or its previous row is still the latest of its
      key and every older row of the key lies below its id. */
  ghost predicate Guarded(rows: Table, log: Table, w: Writer) {
    || Taken(rows, w.row.name, w.row.prev)
    || (Tip(rows, w.row.name, w.row.prev) && (w.stage.Reserved? ==> AllBelow(log, w.row.name, w.stage.id)))
  }

  /** p is the latest visible row of the name, 0 standing for none. */
  ghost predicate Tip(rows: Table, name: string, p: nat) {
    if p == 0 then forall j | j in rows :: rows[j].name != name
    else p in rows && rows[p].name == name && forall j | j in rows && rows[j].name == name :: j <= p
  }

  ghost predicate AllBelow(log: Table, name: string, id: nat) {
    forall j | j in log && log[j].name == name :: j < id
  }

  /** The compaction keeps a pending write guarded. Either the row that refuses it stays, or
      the whole key disappears and the write started from an absent key; or, when nothing
      refuses it, its previous row stays. */
  ghost predicate SafeFor(rows: Table, w: Writer, victims: set<nat>) {
    var name, p := w.row.name, w.row.prev;
    if Taken(rows, name, p) then
      || (exists k :: k in rows && k !in victims && rows[k].name == name && rows[k].prev == p)
      || (p == 0 && Latest(rows, name) in victims && (w.stage.Reserved? ==> Latest(rows, name) < w.stage.id))
    else p !in victims
  }

  /** A compaction that is safe for every pending write. Gap fills play no part in it. */
  ghost predicate SafeForWrites(s: State, r: nat) {
    forall w | w in s.writers && !s.writers[w].stage.Committed? ::
        SafeFor(Core(s.rows), s.writers[w], Victims(Core(s.rows), r))
  }

  ghost predicate WriteSafe(s: State, step: Step) {
    && Enabled(s, step)
    && (step.Compact? ==> SafeForWrites(s, Target(s, step)))
  }

  /** Some write has reserved the id and not committed yet. */
  ghost predicate Holds(s: State, i: nat) {
    exists w :: w in s.writers && s.writers[w].stage.Reserved? && s.writers[w].stage.id == i
  }

  /** A compaction that poller n does not notice: it deletes no change n has yet to read, and no
      fill that keeps a write from committing at an id n has passed. */
  ghost predicate Unnoticed(s: State, n: Node, victims: set<nat>) {
    && (forall v | v in victims && v in s.rows && Passed(n) < v :: IsFill(s.rows[v].name))
    && (forall v | v in victims && n.pollStart < v <= Passed(n) :: !Holds(s, v))
  }

  /** A step that keeps poller k exact: its node starts polling while no committed row lies above
      the highest visible one, and no compaction is noticed by it. */
  ghost predicate PollSafe(s: State, step: Step, k: nat)
    requires Enabled(s, step)
  {
    && (step == StartPoll(k) ==> forall i | i in s.log :: i <= MaxId(s.rows))
    && (step.Compact? && Polls(s, k) ==> Unnoticed(s, s.nodes[k], Victims(s.rows, Target(s, step))))
  }

  // ----- runs -----

  ghost predicate AnyRun(s: State, steps: seq<Step>)
    decreases |steps|
  {
    steps == [] || (Enabled(s, steps[0]) && AnyRun(Apply(s, steps[0]), steps[1..]))
  }

  ghost function Final(s: State, steps: seq<Step>): State
    requires AnyRun(s, steps)
    decreases |steps|
  {
    if steps == [] then s else Final(Apply(s, steps[0]), steps[1..])
  }

  /** A run whose compactions are all safe for the writes pending at that moment. */
  ghost predicate WriteSafeRun(s: State, steps: seq<Step>)
    decreases |steps|
  {
    steps == [] || (WriteSafe(s, steps[0]) && WriteSafeRun(Apply(s, steps[0]), steps[1..]))
  }

  /** A run whose steps all keep poller k exact. */
  ghost predicate PollSafeRun(s: State, steps: seq<Step>, k: nat)
    decreases |steps|
  {
    steps == [] || (Enabled(s, steps[0]) && PollSafe(s, steps[0], k) && PollSafeRun(Apply(s, steps[0]), steps[1..], k))
  }
}

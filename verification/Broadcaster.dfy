/** Fan-out of one stream of events to buffered subscriber channels. The methods are the critical
    sections of the broadcaster's lock; they may be called in any order. */
module Broadcaster {

  const BUFFER := 100

  /** A subscriber's channel. The ghost fields record what was sent over its lifetime. */
  class Chan<T> {
    var buffer: seq<T>
    var closed: bool

    ghost var delivered: seq<T>  // what the reader has taken
    ghost var closes: nat        // how often it was closed
    ghost var start: nat         // how much of the input came before the subscription
    ghost var lost: bool         // an item found the buffer full
    ghost var gap: nat           // how much of the input came before the first lost item

    ghost function Sent(): seq<T>
      reads this
    {
      delivered + buffer
    }

    /** Until an item is lost, an open channel has been sent exactly the input since the subscription,
        a closed one the part before it was closed; after that, still everything before the first loss. */
    ghost predicate Follows(input: seq<T>)
      reads this
    {
      && start <= |input|
      && (!lost ==> Sent() <= input[start..])
      && (!lost && !closed ==> Sent() == input[start..])
      && (lost ==> start <= gap < |input| && input[start..gap] <= Sent())
    }

    ghost predicate Good(input: seq<T>)
      reads this
    {
      && |buffer| <= BUFFER
      && closes == (if closed then 1 else 0)
      && Follows(input)
    }

    constructor (ghost input: seq<T>)
      ensures Good(input) && !closed && !lost && Sent() == [] && start == |input|
    {
      buffer, closed := [], false;
      delivered, closes, start, lost, gap := [], 0, |input|, false, 0;
    }

    /** A send that does not block: an item that finds the buffer full is lost to this channel. */
    method TrySend(item: T, ghost input: seq<T>) returns (ok: bool)
      requires !closed && Good(input)
      modifies this
      ensures Good(input + [item]) && !closed && start == old(start) && delivered == old(delivered)
      ensures ok <==> |old(buffer)| < BUFFER
      ensures buffer == if ok then old(buffer) + [item] else old(buffer)
      ensures lost <==> old(lost) || !ok
    {
      ok := |buffer| < BUFFER;
      ghost var before := Sent();
      if ok {
        buffer := buffer + [item];
        assert Sent() == before + [item];
      } else if !lost {
        lost, gap := true, |input|;
        assert (input + [item])[start..gap] == input[start..];
      }
      assert (input + [item])[start..] == input[start..] + [item];
      assert old(lost) ==> (input + [item])[start..gap] == input[start..gap];
    }

    method Close(ghost input: seq<T>)
      requires !closed && Good(input)
      modifies this
      ensures Good(input) && closed && buffer == old(buffer) && delivered == old(delivered)
      ensures start == old(start) && lost == old(lost)
    {
      closed, closes := true, closes + 1;
    }

    /** The reader takes one item, if there is one. */
    method Receive(ghost input: seq<T>) returns (items: seq<T>)
      requires Good(input)
      modifies this
      ensures Good(input) && closed == old(closed) && start == old(start) && lost == old(lost) && Sent() == old(Sent())
      ensures items == if old(buffer) == [] then [] else [old(buffer)[0]]
      ensures buffer == old(buffer)[|items|..] && delivered == old(delivered) + items
    {
      items := [];
      if buffer != [] {
        items := [buffer[0]];
        ghost var before := Sent();
        delivered, buffer := delivered + items, buffer[1..];
        assert Sent() == before;
      }
    }

    /** A closed channel stays right as the input goes on without it. */
    lemma GoesOn(input: seq<T>, item: T)
      requires closed && Good(input)
      ensures Good(input + [item])
    {
      assert (input + [item])[start..] == input[start..] + [item];
      assert lost ==> (input + [item])[start..gap] == input[start..gap];
    }
  }

  /** A buffer after an item was offered to it. */
  ghost predicate Offered<T>(now: seq<T>, before: seq<T>, item: T) {
    now == if |before| < BUFFER then before + [item] else before
  }

  class Broadcaster<T> {
    var running: bool
    var subs: set<Chan<T>>

    ghost var all: set<Chan<T>>  // every channel handed out
    ghost var input: seq<T>      // everything streamed

    /** A channel is in the map exactly while open, and every channel is right. */
    ghost predicate Valid()
      reads this, all
    {
      && subs <= all
      && (forall c | c in all :: c.Good(input) && (c in subs <==> !c.closed))
      && (!running ==> subs == {})
    }

    constructor ()
      ensures Valid() && !running && subs == {} && all == {} && input == []
    {
      running, subs, all, input := false, {}, {}, [];
    }

    /** `connected` is the outcome of the connect call, which is made only when no stream runs. */
    method Subscribe(connected: bool) returns (sub: Chan?<T>)
      requires Valid()
      modifies this
      ensures Valid() && input == old(input)
      ensures sub == null <==> !old(running) && !connected
      ensures sub == null ==> running == old(running) && subs == old(subs) && all == old(all)
      ensures sub != null ==> running && fresh(sub) && subs == old(subs) + {sub} && all == old(all) + {sub}
      ensures sub != null ==> !sub.closed && !sub.lost && sub.Sent() == [] && sub.start == |input|
    {
      if !running {
        if !connected {
          return null;
        }
        running := true;
      }
      sub := new Chan<T>(input);
      subs, all := subs + {sub}, all + {sub};
    }

    /** Called for a cancelled context, and at any later time for a reader that fell behind. */
    method Unsub(sub: Chan<T>)
      requires Valid() && sub in all
      modifies this, sub
      ensures Valid() && running == old(running) && input == old(input) && all == old(all)
      ensures subs == old(subs) - {sub} && sub.closed
      ensures sub.buffer == old(sub.buffer) && sub.delivered == old(sub.delivered)
    {
      if sub in subs {
        sub.Close(input);
        subs := subs - {sub};
      }
    }

    /** The stream hands one item to every subscriber. */
    method Stream(item: T)
      requires Valid() && running
      modifies this, subs
      ensures Valid() && running && subs == old(subs) && all == old(all) && input == old(input) + [item]
      ensures forall c | c in subs :: Offered(c.buffer, old(c.buffer), item) && c.delivered == old(c.delivered)
      ensures forall c | c in subs :: c.lost <==> old(c.lost) || |old(c.buffer)| == BUFFER
    {
      var todo := subs;
      while todo != {}
        modifies subs
        invariant todo <= subs
        invariant forall c | c in all - subs :: c.closed && c.Good(input)
        invariant forall c | c in todo :: !c.closed && c.Good(input)
        invariant forall c | c in subs - todo :: !c.closed && c.Good(input + [item])
        invariant forall c | c in todo ::
                  c.delivered == old(c.delivered) && c.buffer == old(c.buffer) && c.lost == old(c.lost)
        invariant forall c | c in subs - todo ::
                  Offered(c.buffer, old(c.buffer), item) && c.delivered == old(c.delivered)
        invariant forall c | c in subs - todo :: c.lost <==> old(c.lost) || |old(c.buffer)| == BUFFER
        decreases todo
      {
        var sub :| sub in todo;
        var _ := sub.TrySend(item, input);
        todo := todo - {sub};
      }
      forall c | c in all - subs ensures c.Good(input + [item]) { c.GoesOn(input, item); }
      input := input + [item];
    }

    /** The stream ends: every subscriber is closed. */
    method StreamEnd()
      requires Valid() && running
      modifies this, subs
      ensures Valid() && !running && subs == {} && all == old(all) && input == old(input)
      ensures forall c | c in old(subs) :: c.closed && c.buffer == old(c.buffer) && c.delivered == old(c.delivered)
    {
      ghost var before := subs;
      while subs != {}
        modifies this, before
        invariant Valid() && running && subs <= before && all == old(all) && input == old(input)
        invariant forall c | c in before :: c.buffer == old(c.buffer) && c.delivered == old(c.delivered)
        decreases subs
      {
        var sub :| sub in subs;
        Unsub(sub);
      }
      running := false;
    }
  }

  datatype Op<T> =
    | DoSubscribe(connected: bool)
    | DoUnsub(index: nat)
    | DoStream(item: T)
    | DoEnd
    | DoReceive(index: nat)

  /** What a run amounts to: the items streamed, how many channels were handed out, which are open. */
  datatype Summary<T> = Summary(running: bool, input: seq<T>, handed: nat, open: set<nat>)

  ghost function Next<T>(s: Summary<T>, op: Op<T>): Summary<T> {
    match op
    case DoSubscribe(connected) =>
      if s.running || connected then s.(running := true, handed := s.handed + 1, open := s.open + {s.handed}) else s
    case DoUnsub(k) => s.(open := s.open - {k})
    case DoStream(item) => if s.running then s.(input := s.input + [item]) else s
    case DoEnd => s.(running := false, open := {})
    case DoReceive(_) => s
  }

  ghost function Summarise<T>(ops: seq<Op<T>>): Summary<T> {
    if ops == [] then Summary(false, [], 0, {}) else Next(Summarise(ops[..|ops| - 1]), ops[|ops| - 1])
  }

  ghost predicate Matches<T>(b: Broadcaster<T>, handed: seq<Chan<T>>, s: Summary<T>)
    reads b
  {
    && b.running == s.running && b.input == s.input && |handed| == s.handed
    && (forall c | c in b.all :: c in handed) && (forall c | c in handed :: c in b.all)
    && (forall i, j | 0 <= i < j < |handed| :: handed[i] != handed[j])
    && (forall k | k in s.open :: k < |handed|)
    && (forall k | 0 <= k < |handed| :: handed[k] in b.subs <==> k in s.open)
  }

  method Act<T>(b: Broadcaster<T>, handed: seq<Chan<T>>, op: Op<T>, ghost s: Summary<T>) returns (handed': seq<Chan<T>>)
    requires b.Valid() && Matches(b, handed, s)
    modifies b, set c | c in handed
    ensures b.Valid() && Matches(b, handed', Next(s, op))
    ensures forall c | c in handed' :: c in handed || fresh(c)
  {
    handed' := handed;
    match op {
      case DoSubscribe(connected) =>
        var sub := b.Subscribe(connected);
        if sub != null { handed' := handed + [sub]; }
      case DoUnsub(k) =>
        if k < |handed| { b.Unsub(handed[k]); }
      case DoStream(item) =>
        if b.running { b.Stream(item); }
      case DoEnd =>
        if b.running { b.StreamEnd(); }
      case DoReceive(k) =>
        if k < |handed| { var _ := handed[k].Receive(b.input); }
    }
  }

  /** Any interleaving of subscriptions, cancellations, slow-reader drops, items, stream ends and
      reads, from the start: the broadcaster stays valid, and the channels open are those the
      operations leave open. */
  method Interleave<T>(ops: seq<Op<T>>) returns (b: Broadcaster<T>, handed: seq<Chan<T>>)
    ensures b.Valid() && Matches(b, handed, Summarise(ops))
  {
    b := new Broadcaster<T>();
    handed := [];
    for i := 0 to |ops|
      invariant fresh(b) && (forall c | c in handed :: fresh(c))
      invariant b.Valid() && Matches(b, handed, Summarise(ops[..i]))
    {
      assert ops[..i + 1][..i] == ops[..i];
      handed := Act(b, handed, ops[i], Summarise(ops[..i]));
    }
    assert ops[..|ops|] == ops;
  }
}

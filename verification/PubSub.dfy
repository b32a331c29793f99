/** The in-process half of the LISTEN/NOTIFY pub/sub: the subscriber registry, and
    dispatch into bounded channels that drops rather than blocks. */
module PubSub {
  import opened Tables

  type Payload = string
  const BUFFER_SIZE: nat := 16

  // ----- one subscription channel ---------------------------------------------------

  /** A channel, with the messages its consumer has received so far, and as history
      those dispatched to its topic while it was subscribed. */
  datatype Chan = Chan(topic: Topic, buffer: seq<Payload>, closed: bool, received: seq<Payload>, offered: seq<Payload>)

  /** dispatch's select: send if there is room, drop otherwise. */
  function Offer(c: Chan, p: Payload): Chan {
    c.(offered := c.offered + [p], buffer := if |c.buffer| < BUFFER_SIZE then c.buffer + [p] else c.buffer)
  }

  /** The consumer takes the oldest buffered message. */
  function Receive(c: Chan): Chan
    requires c.buffer != []
  {
    c.(buffer := c.buffer[1..], received := c.received + [c.buffer[0]])
  }

  /** `a` can be had from `b` by leaving messages out. */
  predicate Subsequence(a: seq<Payload>, b: seq<Payload>) {
    if a == [] then true
    else if b == [] then false
    else (a[|a| - 1] == b[|b| - 1] && Subsequence(a[..|a| - 1], b[..|b| - 1])) || Subsequence(a, b[..|b| - 1])
  }

  lemma SubsequenceExtends(a: seq<Payload>, b: seq<Payload>, p: Payload)
    requires Subsequence(a, b)
    ensures Subsequence(a, b + [p]) && Subsequence(a + [p], b + [p])
  {
    assert (a + [p])[..|a|] == a && (b + [p])[..|b|] == b;
  }

  predicate ChanOk(c: Chan) {
    |c.buffer| <= BUFFER_SIZE && Subsequence(c.received + c.buffer, c.offered)
  }

  /** Dispatch keeps the buffer bounded and in order, never leaves it empty, and drops
      the message exactly when the buffer was full. */
  lemma OfferContract(c: Chan, p: Payload)
    requires ChanOk(c)
    ensures ChanOk(Offer(c, p)) && Offer(c, p).buffer != []
    ensures Offer(c, p).buffer == if |c.buffer| < 16 then c.buffer + [p] else c.buffer
    ensures Offer(c, p).offered == c.offered + [p] && Offer(c, p).received == c.received
  {
    SubsequenceExtends(c.received + c.buffer, c.offered, p);
    assert c.received + (c.buffer + [p]) == c.received + c.buffer + [p];
  }

  lemma ReceiveContract(c: Chan)
    requires ChanOk(c) && c.buffer != []
    ensures ChanOk(Receive(c))
    ensures Receive(c).received + Receive(c).buffer == c.received + c.buffer
  {
    assert c.received + [c.buffer[0]] + c.buffer[1..] == c.received + c.buffer;
  }

  // ----- one channel over a whole subscription --------------------------------------

  datatype Event = Dispatched(p: Payload) | Taken

  /** Play events on a channel; taking from an empty channel waits, which is no event. */
  function Play(c: Chan, events: seq<Event>): Chan {
    if events == [] then c
    else
      var before := Play(c, events[..|events| - 1]);
      match events[|events| - 1]
      case Dispatched(p) => Offer(before, p)
      case Taken => if before.buffer == [] then before else Receive(before)
  }

  function DispatchedIn(events: seq<Event>): seq<Payload> {
    if events == [] then []
    else
      var rest := DispatchedIn(events[..|events| - 1]);
      match events[|events| - 1]
      case Dispatched(p) => rest + [p]
      case Taken => rest
  }

  /** Over any subscription, what a subscriber has received and still has buffered is an
      in-order subsequence of what was dispatched, and the buffer never exceeds 16;
      nothing at all is lost as long as no more than 16 messages are dispatched. */
  lemma {:induction false} DeliveryInOrder(t: Topic, events: seq<Event>)
    ensures var c := Play(Chan(t, [], false, [], []), events);
            && c.offered == DispatchedIn(events)
            && Subsequence(c.received + c.buffer, DispatchedIn(events)) && |c.buffer| <= 16
            && |c.received + c.buffer| <= |DispatchedIn(events)|
            && (|DispatchedIn(events)| <= 16 ==> c.received + c.buffer == DispatchedIn(events))
  {
    if events != [] {
      var start := Chan(t, [], false, [], []);
      var n := |events| - 1;
      DeliveryInOrder(t, events[..n]);
      var before := Play(start, events[..n]);
      match events[n] {
        case Dispatched(p) =>
          OfferContract(before, p);
          assert before.received + (before.buffer + [p]) == before.received + before.buffer + [p];
        case Taken => if before.buffer != [] { ReceiveContract(before); }
      }
    }
  }

  /** Receiving takes the oldest buffered message, and as many receives as there are messages
      buffered bring them all over, in order. */
  lemma {:induction false} TakingEmptiesTheBuffer(c: Chan, events: seq<Event>)
    requires forall n | 0 <= n < |events| :: events[n] == Taken
    ensures |events| <= |c.buffer| ==>
              var c' := Play(c, events);
              c'.received == c.received + c.buffer[..|events|] && c'.buffer == c.buffer[|events|..]
  {
    if events != [] && |events| <= |c.buffer| {
      var n := |events| - 1;
      TakingEmptiesTheBuffer(c, events[..n]);
      assert c.buffer[n..][0] == c.buffer[n] && c.buffer[n..][1..] == c.buffer[n + 1..];
      assert c.buffer[..n] + [c.buffer[n]] == c.buffer[..n + 1];
    }
  }

  // ----- the registry ---------------------------------------------------------------

  datatype SubResult = Subscribed(id: nat) | ErrEmptyTopic | ErrShutDown | ErrNotListening

  predicate Registered(subscribers: map<Topic, set<nat>>, t: Topic, id: nat) {
    t in subscribers && id in subscribers[t]
  }

  /** pgPubSub: channels are named by their index in `chans`. */
  class PgPubSub {
    var subscribers: map<Topic, set<nat>>
    var chans: seq<Chan>
    var listening: bool

    /** A channel is open exactly while it is registered, and only under its own topic;
        topics without subscribers have no entry. */
    ghost predicate Valid()
      reads this
    {
      && (forall t: Topic, id: nat | Registered(subscribers, t, id) ::
            id < |chans| && chans[id].topic == t && !chans[id].closed)
      && (forall id | 0 <= id < |chans| && !chans[id].closed :: Registered(subscribers, chans[id].topic, id))
      && (forall t | t in subscribers :: subscribers[t] != {})
      && (forall id | 0 <= id < |chans| :: ChanOk(chans[id]))
    }

    constructor ()
      ensures Valid() && subscribers == map[] && chans == [] && !listening
    {
      subscribers, chans, listening := map[], [], false;
    }

    /** `shutDown` says that the ctx given to NewPGPubSub has ended, and `dialFails`
        that the listener could not be started. */
    method Sub(topic: Topic, shutDown: bool, dialFails: bool) returns (r: SubResult)
      requires Valid()
      modifies this
      ensures Valid()
      ensures r == if topic == "" then ErrEmptyTopic
                   else if shutDown then ErrShutDown
                   else if !old(listening) && dialFails then ErrNotListening
                   else Subscribed(|old(chans)|)
      ensures r.Subscribed? ==>
                && listening && Registered(subscribers, topic, r.id)
                && chans == old(chans) + [Chan(topic, [], false, [], [])]
      ensures !r.Subscribed? ==> subscribers == old(subscribers) && chans == old(chans) && listening == old(listening)
      ensures forall t: Topic, id: nat | Registered(old(subscribers), t, id) :: Registered(subscribers, t, id)
    {
      if topic == "" {
        return ErrEmptyTopic;
      }
      if shutDown {
        return ErrShutDown;
      }
      if !listening {
        if dialFails {
          return ErrNotListening;
        }
        listening := true;
      }
      var id := |chans|;
      chans := chans + [Chan(topic, [], false, [], [])];
      var subs := if topic in subscribers then subscribers[topic] else {};
      subscribers := subscribers[topic := subs + {id}];
      assert forall t: Topic, n: nat ::
          Registered(subscribers, t, n) == (Registered(old(subscribers), t, n) || (t == topic && n == id));
      return Subscribed(id);
    }

    /** Closes the channel once; a channel that is not registered is left alone. */
    method Unsubscribe(topic: Topic, id: nat)
      requires Valid()
      modifies this
      ensures Valid() && !Registered(subscribers, topic, id) && |chans| == |old(chans)| && listening == old(listening)
      ensures forall t: Topic, n: nat | !(t == topic && n == id) ::
                Registered(subscribers, t, n) == Registered(old(subscribers), t, n)
      ensures forall n | 0 <= n < |chans| ::
                chans[n] == if n == id && Registered(old(subscribers), topic, id)
                            then old(chans[n]).(closed := true) else old(chans[n])
    {
      if !Registered(subscribers, topic, id) {
        return;
      }
      assert !chans[id].closed;
      var subs := subscribers[topic] - {id};
      assert forall n: nat :: n in subs <==> n in subscribers[topic] && n != id;
      subscribers := if subs == {} then subscribers - {topic} else subscribers[topic := subs];
      chans := chans[id := chans[id].(closed := true)];
      assert forall t: Topic, n: nat ::
          Registered(subscribers, t, n) == (Registered(old(subscribers), t, n) && !(t == topic && n == id));
    }

    /** Offers the message to every subscriber of its topic, and to no closed channel. */
    method Dispatch(topic: Topic, p: Payload)
      requires Valid()
      modifies this`chans
      ensures Valid() && |chans| == |old(chans)|
      ensures forall n | 0 <= n < |chans| ::
                chans[n] == if Registered(subscribers, topic, n) then Offer(old(chans[n]), p) else old(chans[n])
      ensures forall n | 0 <= n < |chans| && old(chans[n]).closed :: chans[n] == old(chans[n])
    {
      var todo := if topic in subscribers then subscribers[topic] else {};
      while todo != {}
        invariant |chans| == |old(chans)|
        invariant forall n: nat | n in todo :: Registered(subscribers, topic, n)
        invariant forall n | 0 <= n < |chans| ::
                    chans[n] == if Registered(subscribers, topic, n) && n !in todo
                                then Offer(old(chans[n]), p) else old(chans[n])
        decreases todo
      {
        var id :| id in todo;
        todo := todo - {id};
        assert !chans[id].closed;
        chans := chans[id := Offer(chans[id], p)];
      }
      forall n | 0 <= n < |chans| && Registered(subscribers, topic, n)
        ensures ChanOk(chans[n])
      {
        OfferContract(old(chans[n]), p);
      }
    }

    /** A consumer receives from its channel: a message, or None once the channel is
        closed and empty.  On an open empty channel it would wait. */
    method Recv(id: nat) returns (p: Option<Payload>)
      requires Valid() && id < |chans| && (chans[id].buffer != [] || chans[id].closed)
      modifies this`chans
      ensures Valid() && |chans| == |old(chans)|
      ensures if old(chans[id]).buffer == [] then p.None? && chans == old(chans)
              else p == Some(old(chans[id]).buffer[0]) && chans == old(chans)[id := Receive(old(chans[id]))]
    {
      if chans[id].buffer == [] {
        return None;
      }
      ReceiveContract(chans[id]);
      p := Some(chans[id].buffer[0]);
      chans := chans[id := Receive(chans[id])];
    }
  }
}

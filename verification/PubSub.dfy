/**
 * The subscription streams of the GraphQL socket server: an in-process publisher whose iterators
 * queue or hand over messages, and the bounded queue in front of each socket.
 */
module PubSub {
  import opened Outcomes

  type Message = string

  /** The answer to one call of next(), calls being numbered from zero. */
  datatype Answer = Answer(call: nat, message: Message)

  /** One subscription: its queue, the call of next() that waits, how many were made, and what they got. */
  datatype Stream = Stream(queue: seq<Message>, waiting: Option<nat>, calls: nat, answers: seq<Answer>)

  const FRESH: Stream := Stream([], None, 0, [])

  function Pushed(s: Stream, m: Message): Stream {
    match s.waiting
    case Some(call) => s.(waiting := None, answers := s.answers + [Answer(call, m)])
    case None => s.(queue := s.queue + [m])
  }

  function Pulled(s: Stream): Stream {
    if s.queue != [] then
      s.(queue := s.queue[1..], calls := s.calls + 1, answers := s.answers + [Answer(s.calls, s.queue[0])])
    else s.(waiting := Some(s.calls), calls := s.calls + 1)
  }

  class Subscription {
    var queue: seq<Message>
    var waiting: Option<nat>
    var calls: nat
    var answers: seq<Answer>

    function State(): Stream
      reads this
    {
      Stream(queue, waiting, calls, answers)
    }

    constructor ()
      ensures State() == FRESH
    {
      queue, waiting, calls, answers := [], None, 0, [];
    }

    method Push(m: Message)
      modifies this
      ensures State() == Pushed(old(State()), m)
    {
      if waiting.Some? {
        answers := answers + [Answer(waiting.value, m)];
        waiting := None;
      } else {
        queue := queue + [m];
      }
    }

    method Next()
      modifies this
      ensures State() == Pulled(old(State()))
    {
      var call := calls;
      calls := calls + 1;
      if |queue| > 0 {
        answers := answers + [Answer(call, queue[0])];
        queue := queue[1..];
      } else {
        waiting := Some(call);
      }
    }
  }

  predicate Distinct(subs: seq<Subscription>) {
    forall i, j :: 0 <= i < j < |subs| ==> subs[i] != subs[j]
  }

  class Publisher {
    var events: map<string, seq<Subscription>>

    ghost predicate Valid()
      reads this
    {
      forall topic :: topic in events ==> Distinct(events[topic])
    }

    function Subscribers(topic: string): seq<Subscription>
      reads this
    {
      if topic in events then events[topic] else []
    }

    constructor ()
      ensures Valid() && events == map[]
    {
      events := map[];
    }

    /** Every subscriber of the topic gets the message once; the others are untouched. */
    method Publish(topic: string, m: Message)
      requires Valid()
      modifies Subscribers(topic)
      ensures Valid() && events == old(events)
      ensures forall s :: s in Subscribers(topic) ==> s.State() == Pushed(old(s.State()), m)
    {
      if topic !in events {
        return;
      }
      var subs := events[topic];
      for i := 0 to |subs|
        invariant events == old(events)
        invariant forall j :: 0 <= j < i ==> subs[j].State() == Pushed(old(subs[j].State()), m)
        invariant forall j :: i <= j < |subs| ==> subs[j].State() == old(subs[j].State())
      {
        subs[i].Push(m);
      }
    }

    method Subscribe(topic: string) returns (s: Subscription)
      requires Valid()
      modifies this
      ensures Valid() && fresh(s) && s.State() == FRESH
      ensures events == old(events)[topic := old(Subscribers(topic)) + [s]]
    {
      var subs := Subscribers(topic);
      s := new Subscription();
      events := events[topic := subs + [s]];
    }

    /** return() of the iterator: no later message reaches it. */
    method Return(topic: string, s: Subscription)
      requires Valid() && topic in events
      modifies this
      ensures Valid() && events.Keys == old(events).Keys
      ensures forall t :: t in events && t != topic ==> events[t] == old(events)[t]
      ensures events[topic] == Without(old(events)[topic], s) && s !in events[topic]
    {
      WithoutDistinct(events[topic], s);
      WithoutMember(events[topic], s, s);
      events := events[topic := Without(events[topic], s)];
    }
  }

  function Without(subs: seq<Subscription>, s: Subscription): seq<Subscription> {
    if subs == [] then []
    else (if subs[0] == s then [] else [subs[0]]) + Without(subs[1..], s)
  }

  lemma {:induction false} WithoutMember(subs: seq<Subscription>, s: Subscription, x: Subscription)
    ensures x in Without(subs, s) <==> x in subs && x != s
  {
    if subs != [] {
      WithoutMember(subs[1..], s, x);
    }
  }

  lemma {:induction false} WithoutDistinct(subs: seq<Subscription>, s: Subscription)
    requires Distinct(subs)
    ensures Distinct(Without(subs, s))
  {
    if subs != [] {
      WithoutDistinct(subs[1..], s);
      WithoutMember(subs[1..], s, subs[0]);
      assert subs[0] !in subs[1..];
    }
  }

  // ----- what one subscription delivers

  datatype Event = Publish(m: Message) | Next

  function After(es: seq<Event>): Stream {
    if es == [] then FRESH
    else match es[|es| - 1]
      case Publish(m) => Pushed(After(es[..|es| - 1]), m)
      case Next => Pulled(After(es[..|es| - 1]))
  }

  function Published(es: seq<Event>): seq<Message> {
    if es == [] then []
    else Published(es[..|es| - 1]) + match es[|es| - 1] case Publish(m) => [m] case Next => []
  }

  function Messages(answers: seq<Answer>): seq<Message> {
    seq(|answers|, i requires 0 <= i < |answers| => answers[i].message)
  }

  /** Calls of next() made while another one waited; the one that waited is never answered. */
  function Overtaken(es: seq<Event>): nat {
    if es == [] then 0
    else Overtaken(es[..|es| - 1]) + if es[|es| - 1].Next? && After(es[..|es| - 1]).waiting.Some? then 1 else 0
  }

  function Count(waiting: Option<nat>): nat {
    if waiting.Some? then 1 else 0
  }

  predicate Increasing(s: Stream) {
    && (forall i, j :: 0 <= i < j < |s.answers| ==> s.answers[i].call < s.answers[j].call)
    && (forall i :: 0 <= i < |s.answers| ==> s.answers[i].call < if s.waiting.Some? then s.waiting.value else s.calls)
    && (s.waiting.Some? ==> s.waiting.value < s.calls && s.queue == [])
  }

  /**
   * Nothing is lost, repeated or reordered: what the calls got, in order, followed by the queue,
   * is everything published since subscribing, even if calls overlap.
   */
  lemma {:induction false} NothingLost(es: seq<Event>)
    ensures Messages(After(es).answers) + After(es).queue == Published(es)
    ensures Increasing(After(es))
  {
    if es != [] {
      NothingLost(es[..|es| - 1]);
      var s := After(es[..|es| - 1]);
      match es[|es| - 1]
      case Publish(m) =>
        if s.waiting.Some? {
          assert Messages(s.answers + [Answer(s.waiting.value, m)]) == Messages(s.answers) + [m];
        }
      case Next =>
        if s.queue != [] {
          assert Messages(s.answers + [Answer(s.calls, s.queue[0])]) == Messages(s.answers) + [s.queue[0]];
          assert s.queue == [s.queue[0]] + s.queue[1..];
        }
    }
  }

  /** The counts behind this: every call is answered or waits, except for the overtaken ones. */
  lemma {:induction false} CallsAccounted(es: seq<Event>)
    ensures After(es).calls == |After(es).answers| + Count(After(es).waiting) + Overtaken(es)
  {
    if es != [] {
      CallsAccounted(es[..|es| - 1]);
      NothingLost(es[..|es| - 1]);
    }
  }

  predicate Answered(s: Stream, call: nat) {
    exists i :: 0 <= i < |s.answers| && s.answers[i].call == call
  }

  predicate Waits(s: Stream, call: nat) {
    s.waiting == Some(call)
  }

  predicate OvertakenAt(es: seq<Event>, call: nat, k: nat)
    requires k < |es|
  {
    es[k].Next? && Waits(After(es[..k]), call)
  }

  /** Another call was made while this one waited. */
  predicate WasOvertaken(es: seq<Event>, call: nat) {
    exists k :: 0 <= k < |es| && OvertakenAt(es, call, k)
  }

  lemma {:induction false} OvertakenNext(es: seq<Event>, call: nat)
    requires es != []
    ensures WasOvertaken(es, call) <==> WasOvertaken(es[..|es| - 1], call) || OvertakenAt(es, call, |es| - 1)
  {
    var init := es[..|es| - 1];
    forall k | 0 <= k < |init| ensures OvertakenAt(init, call, k) <==> OvertakenAt(es, call, k) {
      assert init[..k] == es[..k];
    }
  }

  lemma {:induction false} AnsweredNext(s: Stream, a: Answer, t: Stream, call: nat)
    requires t.answers == s.answers + [a]
    ensures Answered(t, call) <==> Answered(s, call) || a.call == call
  {
    if Answered(s, call) {
      var i :| 0 <= i < |s.answers| && s.answers[i].call == call;
      assert t.answers[i].call == call;
    }
    assert t.answers[|s.answers|] == a;
  }

  /** A call that was made is answered, waits, or was overtaken, and only one of these; of the others none is. */
  lemma {:induction false} CallFates(es: seq<Event>, call: nat)
    ensures var s := After(es);
            && (call < s.calls <==> Answered(s, call) || Waits(s, call) || WasOvertaken(es, call))
            && !(Answered(s, call) && Waits(s, call))
            && !(WasOvertaken(es, call) && (Answered(s, call) || Waits(s, call)))
  {
    NothingLost(es);
    if es != [] {
      var init := es[..|es| - 1];
      var s, t := After(init), After(es);
      CallFates(init, call);
      NothingLost(init);
      OvertakenNext(es, call);
      if |t.answers| > |s.answers| {
        AnsweredNext(s, t.answers[|s.answers|], t, call);
      }
    }
  }

  /** So a call that was overtaken is never answered, whatever comes later. */
  lemma {:induction false} OvertakenIsNeverAnswered(es: seq<Event>, later: seq<Event>, call: nat)
    requires WasOvertaken(es, call)
    ensures !Answered(After(es + later), call)
  {
    var k :| 0 <= k < |es| && OvertakenAt(es, call, k);
    assert (es + later)[..k] == es[..k];
    assert OvertakenAt(es + later, call, k);
    CallFates(es + later, call);
  }

  lemma {:induction false} AnswerBounds(s: Stream, i: nat)
    requires Increasing(s) && i < |s.answers|
    ensures i <= s.answers[i].call
    ensures |s.answers| - i + s.answers[i].call <= if s.waiting.Some? then s.waiting.value else s.calls
    decreases |s.answers| - i
  {
    AnswerLow(s, i);
    if i + 1 < |s.answers| {
      AnswerBounds(s, i + 1);
    }
  }

  lemma {:induction false} AnswerLow(s: Stream, i: nat)
    requires Increasing(s) && i < |s.answers|
    ensures i <= s.answers[i].call
  {
    if i > 0 {
      AnswerLow(s, i - 1);
    }
  }

  /** With never more than one call pending, the i-th call gets the i-th message published. */
  lemma {:induction false} IthCallGetsIthMessage(es: seq<Event>)
    requires Overtaken(es) == 0
    ensures |After(es).answers| == if After(es).calls <= |Published(es)| then After(es).calls else |Published(es)|
    ensures forall i :: 0 <= i < |After(es).answers| ==> After(es).answers[i] == Answer(i, Published(es)[i])
  {
    NothingLost(es);
    CallsAccounted(es);
    forall i | 0 <= i < |After(es).answers| ensures After(es).answers[i] == Answer(i, Published(es)[i]) {
      AnswerBounds(After(es), i);
      assert Messages(After(es).answers)[i] == Published(es)[i];
    }
  }

  // ----- the queue in front of a socket

  const QUEUE_LIMIT: nat := 32

  function Last(s: seq<Message>, n: nat): seq<Message> {
    if |s| <= n then s else s[|s| - n..]
  }

  class SocketQueue {
    var queue: seq<Message>
    var sent: seq<Message>

    constructor ()
      ensures queue == [] && sent == []
    {
      queue, sent := [], [];
    }

    method SendMessage(m: Message, open: bool)
      requires |queue| <= QUEUE_LIMIT
      modifies this
      ensures |queue| <= QUEUE_LIMIT
      ensures var all := Last(old(queue) + [m], QUEUE_LIMIT);
              if open then queue == [] && sent == old(sent) + all else queue == all && sent == old(sent)
    {
      queue := queue + [m];
      if |queue| > QUEUE_LIMIT {
        queue := queue[1..];
      }
      ghost var all := queue;
      if open {
        while |queue| > 0
          invariant sent + queue == old(sent) + all
        {
          sent := sent + [queue[0]];
          queue := queue[1..];
        }
      }
    }
  }

  /** A message handed to the socket, and whether the socket was open then. */
  datatype Send = Send(m: Message, open: bool)

  datatype Socket = Socket(queue: seq<Message>, sent: seq<Message>)

  function AfterSends(ss: seq<Send>): (r: Socket)
    ensures |r.queue| <= QUEUE_LIMIT
  {
    if ss == [] then Socket([], [])
    else
      var before, s := AfterSends(ss[..|ss| - 1]), ss[|ss| - 1];
      var all := Last(before.queue + [s.m], QUEUE_LIMIT);
      if s.open then Socket([], before.sent + all) else Socket(all, before.sent)
  }

  function Handed(ss: seq<Send>): seq<Message> {
    seq(|ss|, i requires 0 <= i < |ss| => ss[i].m)
  }

  // which messages are queued and sent, by their positions in the run

  /** The socket was found open just before position p, or p is the start, and not again before position n. */
  predicate ClosedFrom(ss: seq<Send>, p: nat, n: nat) {
    && p <= n <= |ss| && (p == 0 || ss[p - 1].open)
    && forall k :: p <= k < n ==> !ss[k].open
  }

  /** The first of the last 32 positions before n, but none before p. */
  function Oldest(p: nat, n: nat): (lo: nat)
    requires p <= n
    ensures p <= lo <= n && (lo == p || n - lo == 32) && n - lo <= 32
  {
    if n - p > 32 then n - 32 else p
  }

  /** While the socket is closed nothing is sent, and the queue is the newest messages, in order, up to 32. */
  lemma {:induction false} QueueIsNewest(ss: seq<Send>, p: nat)
    requires ClosedFrom(ss, p, |ss|)
    ensures AfterSends(ss).queue == Handed(ss)[Oldest(p, |ss|)..]
    ensures AfterSends(ss).sent == AfterSends(ss[..p]).sent
  {
    if p == |ss| {
      assert ss[..p] == ss;
    } else {
      var before := ss[..|ss| - 1];
      assert before[..p] == ss[..p];
      assert ClosedFrom(before, p, |before|);
      QueueIsNewest(before, p);
      QueueNext(ss, p);
    }
  }

  lemma {:induction false} QueueNext(ss: seq<Send>, p: nat)
    requires p < |ss| && AfterSends(ss[..|ss| - 1]).queue == Handed(ss[..|ss| - 1])[Oldest(p, |ss| - 1)..]
    ensures Last(AfterSends(ss[..|ss| - 1]).queue + [ss[|ss| - 1].m], QUEUE_LIMIT) == Handed(ss)[Oldest(p, |ss|)..]
  {
    var before, m := ss[..|ss| - 1], ss[|ss| - 1].m;
    QueueGrows(Handed(before), p, m);
    assert Handed(ss) == Handed(before) + [m];
  }

  lemma {:induction false} QueueGrows(handed: seq<Message>, p: nat, m: Message)
    requires p <= |handed|
    ensures Last(handed[Oldest(p, |handed|)..] + [m], QUEUE_LIMIT) ==
            (handed + [m])[Oldest(p, |handed| + 1)..]
  {
  }

  /**
   * When the socket is found open, what it gets then is the newest messages since it was open
   * before, in order, up to 32: the one just handed over is the last of them.
   */
  lemma {:induction false} FlushIsNewest(ss: seq<Send>, p: nat)
    requires ss != [] && ss[|ss| - 1].open && ClosedFrom(ss, p, |ss| - 1)
    ensures AfterSends(ss).sent == AfterSends(ss[..|ss| - 1]).sent + Handed(ss)[Oldest(p, |ss|)..]
    ensures AfterSends(ss).queue == []
  {
    var n := |ss| - 1;
    assert ClosedFrom(ss[..n], p, n);
    QueueIsNewest(ss[..n], p);
    QueueNext(ss, p);
  }

  /** The messages handed over since the socket was last found open. */
  function Pending(ss: seq<Send>): seq<Message> {
    if ss == [] || ss[|ss| - 1].open then [] else Pending(ss[..|ss| - 1]) + [ss[|ss| - 1].m]
  }

  /** The messages up to each time the socket was found open, cut at those times. */
  function Batches(ss: seq<Send>): seq<seq<Message>> {
    if ss == [] then []
    else if ss[|ss| - 1].open then Batches(ss[..|ss| - 1]) + [Pending(ss[..|ss| - 1]) + [ss[|ss| - 1].m]]
    else Batches(ss[..|ss| - 1])
  }

  function Flatten(parts: seq<seq<Message>>, limit: nat): seq<Message> {
    if parts == [] then [] else Flatten(parts[..|parts| - 1], limit) + Last(parts[|parts| - 1], limit)
  }

  lemma {:induction false} LastOfLast(s: seq<Message>, m: Message, n: nat)
    ensures Last(Last(s, n) + [m], n) == Last(s + [m], n)
  {
  }

  /**
   * Each time the socket is found open it gets exactly the last messages, up to the limit, handed
   * over since the time before.
   */
  lemma {:induction false} SendsLastOfEachBatch(ss: seq<Send>)
    ensures AfterSends(ss).sent == Flatten(Batches(ss), QUEUE_LIMIT)
    ensures AfterSends(ss).queue == Last(Pending(ss), QUEUE_LIMIT)
  {
    if ss != [] {
      var before, s := ss[..|ss| - 1], ss[|ss| - 1];
      SendsLastOfEachBatch(before);
      LastOfLast(Pending(before), s.m, QUEUE_LIMIT);
      if s.open {
        var batches := Batches(ss);
        assert batches[..|batches| - 1] == Batches(before);
      }
    }
  }

  function Longest(parts: seq<seq<Message>>): nat {
    if parts == [] then 0
    else
      var rest := Longest(parts[..|parts| - 1]);
      if |parts[|parts| - 1]| > rest then |parts[|parts| - 1]| else rest
  }

  /** The batches and what is pending are everything handed over, in order. */
  lemma {:induction false} FlattenSnoc(parts: seq<seq<Message>>, last: seq<Message>, limit: nat)
    requires limit >= Longest(parts + [last])
    ensures limit >= Longest(parts)
    ensures Flatten(parts + [last], limit) == Flatten(parts, limit) + last
  {
    assert (parts + [last])[..|parts|] == parts;
  }

  lemma {:induction false} HandedNext(ss: seq<Send>)
    requires ss != []
    ensures Handed(ss) == Handed(ss[..|ss| - 1]) + [ss[|ss| - 1].m]
  {
  }

  lemma {:induction false} PartitionNext(sent: seq<Message>, pending: seq<Message>, m: Message, handed: seq<Message>)
    requires sent + pending == handed
    ensures sent + (pending + [m]) == handed + [m] && (sent + (pending + [m])) + [] == handed + [m]
  {
  }

  lemma {:induction false} BatchesPartition(ss: seq<Send>, limit: nat)
    requires limit >= Longest(Batches(ss))
    ensures Flatten(Batches(ss), limit) + Pending(ss) == Handed(ss)
  {
    if ss != [] {
      var before, m := ss[..|ss| - 1], ss[|ss| - 1].m;
      HandedNext(ss);
      if ss[|ss| - 1].open {
        FlattenSnoc(Batches(before), Pending(before) + [m], limit);
      }
      BatchesPartition(before, limit);
      PartitionNext(Flatten(Batches(before), limit), Pending(before), m, Handed(before));
    }
  }

  /** No message is dropped exactly if no more than the limit are ever handed over while the socket is not open. */
  lemma {:induction false} DropsExactlyBeyondLimit(ss: seq<Send>)
    ensures AfterSends(ss).sent + AfterSends(ss).queue == Handed(ss)
            <==> Longest(Batches(ss)) <= QUEUE_LIMIT && |Pending(ss)| <= QUEUE_LIMIT
  {
    SendsLastOfEachBatch(ss);
    var limit := if Longest(Batches(ss)) > QUEUE_LIMIT then Longest(Batches(ss)) else QUEUE_LIMIT;
    BatchesPartition(ss, limit);
    FlattenLength(Batches(ss), limit);
  }

  lemma {:induction false} FlattenLength(parts: seq<seq<Message>>, limit: nat)
    requires limit >= QUEUE_LIMIT && limit >= Longest(parts)
    ensures |Flatten(parts, QUEUE_LIMIT)| <= |Flatten(parts, limit)|
    ensures |Flatten(parts, QUEUE_LIMIT)| == |Flatten(parts, limit)| <==> Longest(parts) <= QUEUE_LIMIT
    ensures Longest(parts) <= QUEUE_LIMIT ==> Flatten(parts, QUEUE_LIMIT) == Flatten(parts, limit)
  {
    if parts != [] {
      FlattenLength(parts[..|parts| - 1], limit);
    }
  }
}

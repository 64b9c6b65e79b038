/** The batching of each topic by itself. */
module Lanes {
  import opened Text
  import opened Bytes
  import opened Header
  import opened Image
  import opened Batching
  import opened Runs

  function Counter(s: State, t: string): int {
    if t in s.sizes then s.sizes[t] else 0
  }

  /** What one message does. Below both thresholds it only waits: no batch is stashed and no
      outside call is made, however stale the byte counter is. At one of them the queue is stashed
      with the message at its end. A negative limit is compared as a huge size_t. */
  lemma ArrivalRule(cfg: Config, s: State, m: Message, pending: seq<Message>, counted: int)
    requires pending == Queue(s, m.topic) + [m]
    requires counted == (if m.topic in s.sizes then s.sizes[m.topic] else 0) + |m.payload|
    ensures var s' := Step(cfg, s, Arrived(m));
            if |pending| >= (if cfg.limit < 0 then cfg.limit + 0x1_0000_0000_0000_0000 else cfg.limit)
               || counted >= cfg.size
            then
              && s'.queues == s.queues[m.topic := []] && s'.sizes == s.sizes[m.topic := 0]
              && s'.consumed == s.consumed + [m] && s'.batches == s.batches + [Batch(m.topic, pending)]
              && s'.trace == s.trace + BatchEffects(cfg.env, |s.trace|, Batch(m.topic, pending))
            else
              s' == State(s.queues[m.topic := pending], s.sizes[m.topic := counted], s.consumed + [m],
                          s.batches, s.trace)
  {
    hide BatchEffects;
    assert s.queues[m.topic := pending][m.topic := []] == s.queues[m.topic := []];
    assert s.sizes[m.topic := counted][m.topic := 0] == s.sizes[m.topic := 0];
  }

  // ---------- stashing everything ----------

  ghost predicate AscendingTopics(bs: seq<Batch>) {
    forall i, j :: 0 <= i < j < |bs| ==> LexLess(bs[i].topic, bs[j].topic)
  }

  lemma PrependLeast(first: seq<Batch>, rest: seq<Batch>, t: string)
    requires first == [] || (|first| == 1 && first[0].topic == t)
    requires AscendingTopics(rest) && forall b :: b in rest ==> LexLess(t, b.topic)
    ensures AscendingTopics(first + rest)
  {
    hide LexLess;
    var bs := first + rest;
    forall i, j | 0 <= i < j < |bs|
      ensures LexLess(bs[i].topic, bs[j].topic)
    {
      assert bs[j] == rest[j - |first|] && bs[j] in rest;
      assert i >= |first| ==> bs[i] == rest[i - |first|];
    }
  }

  lemma StashBatches(env: Env, s: State, t: string, first: seq<Batch>)
    requires first == if Queue(s, t) == [] then [] else [Batch(t, Queue(s, t))]
    ensures Stash(env, s, t).batches == s.batches + first
  {
    hide BatchEffects;
  }

  lemma {:induction false} StashKeysBatches(env: Env, s: State, todo: set<string>) returns (bs: seq<Batch>)
    ensures StashKeys(env, s, todo).batches == s.batches + bs
    ensures AscendingTopics(bs)
    ensures forall b :: b in bs ==> b.topic in todo && b.msgs == Queue(s, b.topic) != []
    ensures forall t :: t in todo && Queue(s, t) != [] ==> Batch(t, Queue(s, t)) in bs
    decreases todo
  {
    hide Stash, Queue, LexLess, AscendingTopics;
    if todo == {} {
      bs := [];
      NoBatches();
    } else {
      var t := Least(todo);
      var first := if Queue(s, t) == [] then [] else [Batch(t, Queue(s, t))];
      StashFrame(env, s, t);
      StashBatches(env, s, t, first);
      var rest := StashKeysBatches(env, Stash(env, s, t), todo - {t});
      PrependLeast(first, rest, t);
      bs := first + rest;
    }
  }

  lemma NoBatches()
    ensures AscendingTopics([])
  {
  }

  /** A timeout, end of partition or error stashes exactly the topics with something pending, the
      whole queue of each, in the order of their names. */
  lemma NoticeBatches(cfg: Config, s: State) returns (bs: seq<Batch>)
    ensures Step(cfg, s, Notice).batches == s.batches + bs
    ensures forall i, j :: 0 <= i < j < |bs| ==> LexLess(bs[i].topic, bs[j].topic)
    ensures forall b :: b in bs ==> b.msgs == Queue(s, b.topic) != []
    ensures forall t :: Queue(s, t) != [] ==> Batch(t, Queue(s, t)) in bs
  {
    hide LexLess;
    bs := StashKeysBatches(cfg.env, s, s.queues.Keys);
  }

  // ---------- one topic ----------

  /** What is pending of a topic, what its counter says, and its batches so far. */
  datatype Lane = Lane(pending: seq<Message>, counted: int, stashed: seq<seq<Message>>)

  function BatchesOf(bs: seq<Batch>, t: string): seq<seq<Message>> {
    if bs == [] then []
    else BatchesOf(bs[..|bs| - 1], t) + if bs[|bs| - 1].topic == t then [bs[|bs| - 1].msgs] else []
  }

  function LaneIn(s: State, t: string): Lane {
    Lane(Queue(s, t), Counter(s, t), BatchesOf(s.batches, t))
  }

  /** A topic on its own: one queue, one counter, one list of batches. A timeout empties the
      queue and leaves the counter. */
  function LaneStep(cfg: Config, l: Lane, e: Event, t: string): Lane {
    match e
    case Nothing => l
    case Notice => if l.pending == [] then l else Lane([], l.counted, l.stashed + [l.pending])
    case Arrived(m) =>
      if m.topic != t then l
      else
        var pending, counted := l.pending + [m], l.counted + |m.payload|;
        if |pending| >= (if cfg.limit < 0 then cfg.limit + 0x1_0000_0000_0000_0000 else cfg.limit)
           || counted >= cfg.size
        then Lane([], 0, l.stashed + [pending])
        else Lane(pending, counted, l.stashed)
  }

  function LaneOf(cfg: Config, es: seq<Event>, t: string): Lane {
    if es == [] then Lane([], 0, [])
    else LaneStep(cfg, LaneOf(cfg, es[..|es| - 1], t), es[|es| - 1], t)
  }

  lemma BatchesOfAppend(bs: seq<Batch>, b: Batch, t: string)
    ensures BatchesOf(bs + [b], t) == BatchesOf(bs, t) + if b.topic == t then [b.msgs] else []
  {
    assert (bs + [b])[..|bs|] == bs;
  }

  lemma StashLane(env: Env, s: State, topic: string, t: string)
    ensures var l := LaneIn(s, t);
            LaneIn(Stash(env, s, topic), t) ==
            if t != topic || l.pending == [] then l else Lane([], l.counted, l.stashed + [l.pending])
  {
    hide BatchEffects;
    BatchesOfAppend(s.batches, Batch(topic, Queue(s, topic)), t);
  }

  lemma {:induction false} StashKeysLane(env: Env, s: State, todo: set<string>, t: string)
    ensures var l := LaneIn(s, t);
            LaneIn(StashKeys(env, s, todo), t) ==
            if t !in todo || l.pending == [] then l else Lane([], l.counted, l.stashed + [l.pending])
    decreases todo
  {
    hide Stash, LaneIn;
    if todo != {} {
      StashLane(env, s, Least(todo), t);
      StashKeysLane(env, Stash(env, s, Least(todo)), todo - {Least(todo)}, t);
    }
  }

  lemma LaneUpdated(s: State, s': State, topic: string, q: seq<Message>, n: int, bs: seq<Batch>, t: string)
    requires s'.queues == s.queues[topic := q] && s'.sizes == s.sizes[topic := n] && s'.batches == s.batches + bs
    requires bs == [] || (|bs| == 1 && bs[0].topic == topic)
    ensures LaneIn(s', t) ==
            if t != topic then LaneIn(s, t)
            else Lane(q, n, BatchesOf(s.batches, t) + if bs == [] then [] else [bs[0].msgs])
  {
    if bs == [] {
      assert s'.batches == s.batches;
    } else {
      assert bs == [bs[0]];
      BatchesOfAppend(s.batches, bs[0], t);
    }
  }

  lemma ArrivalLane(cfg: Config, s: State, m: Message, t: string)
    ensures LaneIn(Step(cfg, s, Arrived(m)), t) == LaneStep(cfg, LaneIn(s, t), Arrived(m), t)
  {
    hide Step, BatchEffects, BatchesOf;
    var pending, counted := Queue(s, m.topic) + [m], Counter(s, m.topic) + |m.payload|;
    var s' := Step(cfg, s, Arrived(m));
    ArrivalRule(cfg, s, m, pending, counted);
    if |pending| >= (if cfg.limit < 0 then cfg.limit + 0x1_0000_0000_0000_0000 else cfg.limit) || counted >= cfg.size {
      LaneUpdated(s, s', m.topic, [], 0, [Batch(m.topic, pending)], t);
    } else {
      LaneUpdated(s, s', m.topic, pending, counted, [], t);
    }
  }

  lemma NoticeLane(cfg: Config, s: State, t: string)
    ensures LaneIn(Step(cfg, s, Notice), t) == LaneStep(cfg, LaneIn(s, t), Notice, t)
  {
    hide LaneIn;
    StashKeysLane(cfg.env, s, s.queues.Keys, t);
    NothingPending(s, t);
  }

  lemma NothingPending(s: State, t: string)
    ensures t !in s.queues ==> LaneIn(s, t).pending == []
  {
  }

  /** The whole machine, seen at one topic, is that topic on its own: queue, counter and batches
      of every run, with the thresholds and the counter a timeout leaves behind. */
  lemma {:induction false} EachTopicAlone(cfg: Config, es: seq<Event>, t: string)
    ensures LaneIn(Run(cfg, es), t) == LaneOf(cfg, es, t)
    decreases es
  {
    hide Step, LaneIn, LaneStep;
    if es == [] {
      EmptyLane(t);
    } else {
      var s, e := Run(cfg, es[..|es| - 1]), es[|es| - 1];
      EachTopicAlone(cfg, es[..|es| - 1], t);
      match e
      case Arrived(m) =>
        ArrivalLane(cfg, s, m, t);
      case Notice =>
        NoticeLane(cfg, s, t);
      case Nothing =>
        NothingHappens(cfg, s, LaneIn(s, t), t);
    }
  }

  lemma EmptyLane(t: string)
    ensures LaneIn(EMPTY, t) == Lane([], 0, [])
  {
  }

  lemma NothingHappens(cfg: Config, s: State, l: Lane, t: string)
    ensures Step(cfg, s, Nothing) == s && LaneStep(cfg, l, Nothing, t) == l
  {
  }

  /** The events without the messages of other topics. */
  function Heard(es: seq<Event>, t: string): seq<Event> {
    if es == [] then []
    else
      var last := es[|es| - 1];
      Heard(es[..|es| - 1], t) + if last.Arrived? && last.msg.topic != t then [] else [last]
  }

  lemma {:induction false} OnlyHeard(cfg: Config, es: seq<Event>, t: string)
    ensures LaneOf(cfg, Heard(es, t), t) == LaneOf(cfg, es, t)
    decreases es
  {
    hide LaneStep;
    if es != [] {
      var front, last := Heard(es[..|es| - 1], t), es[|es| - 1];
      OnlyHeard(cfg, es[..|es| - 1], t);
      if last.Arrived? && last.msg.topic != t {
        NotHeard(cfg, LaneOf(cfg, es[..|es| - 1], t), last, t);
        assert Heard(es, t) == front;
      } else {
        assert (front + [last])[..|front|] == front;
      }
    }
  }

  lemma NotHeard(cfg: Config, l: Lane, e: Event, t: string)
    requires e.Arrived? && e.msg.topic != t
    ensures LaneStep(cfg, l, e, t) == l
  {
  }

  /** No topic disturbs another: queue, counter and batches of a topic are the same in a run in
      which only its own messages arrive. */
  lemma TopicsIndependent(cfg: Config, es: seq<Event>, t: string)
    ensures LaneIn(Run(cfg, es), t) == LaneIn(Run(cfg, Heard(es, t)), t)
  {
    hide LaneIn, LaneOf, Run;
    EachTopicAlone(cfg, es, t);
    EachTopicAlone(cfg, Heard(es, t), t);
    OnlyHeard(cfg, es, t);
  }
}

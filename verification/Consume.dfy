/** The consumer object of k3backup. */
module Consume {
  import opened Text
  import opened Bytes
  import opened Header
  import opened Image
  import opened Batching
  import TopicDiscovery
  import Wildcard
  import Keys
  import Runs

  class Consume {
    const limit: int32
    const size: int32
    const env: Env

    // Pending messages and their byte counters, by topic.
    var messages: map<string, seq<Message>>
    var messageSizes: map<string, int>

    // Topic patterns: excluded ones, and the subscriptions.
    var excludeTopics: seq<string>
    var topics: seq<string>

    // The calls made: puts and commits in one sequence, and subscribe.
    var trace: seq<Effect>
    var subscribed: seq<seq<string>>

    // Histories.
    ghost var consumed: seq<Message>
    ghost var batches: seq<Batch>

    function Cfg(): Config {
      Config(limit, size, env)
    }

    ghost function View(): State
      reads this
    {
      State(messages, messageSizes, consumed, batches, trace)
    }

    ghost predicate Valid()
      reads this
    {
      messages.Keys == messageSizes.Keys
    }

    constructor (limit: int32, size: int32, env: Env, excludeTopics: seq<string>, topics: seq<string>)
      ensures Valid() && View() == EMPTY
      ensures Cfg() == Config(limit, size, env)
      ensures this.excludeTopics == excludeTopics && this.topics == topics && subscribed == []
    {
      this.limit, this.size, this.env := limit, size, env;
      this.excludeTopics, this.topics := excludeTopics, topics;
      messages, messageSizes := map[], map[];
      trace, subscribed := [], [];
      consumed, batches := [], [];
    }

    // ---------- batching ----------

    /** The image of a batch is built in memory and put under a new key. */
    method PutImage(topic: string, queue: seq<Message>, totalPayloadSize: nat)
      requires queue != [] && totalPayloadSize == PayloadSize(queue)
      modifies this`trace
      ensures trace == old(trace) + [BatchPut(env, |old(trace)|, Batch(topic, queue))]
    {
      var p, totalSize := WriteImage(queue, totalPayloadSize);
      var lastTs := queue[|queue| - 1].timestamp;
      var calls := |trace|;
      var key := Keys.StashKey(topic, env.localTime(WholeSeconds(lastTs)), env.seed(calls), env.rnd(calls));
      trace := trace + [Put(key, p[..totalSize], NatText(|queue|))];
    }

    /** The wrappers are erased front to back; destroying one commits its message. */
    method EraseAll(topic: string)
      requires topic in messages
      modifies this`messages, this`trace
      ensures messages == old(messages)[topic := []]
      ensures trace == old(trace) + Commits(old(messages)[topic])
    {
      ghost var queue := messages[topic];
      ghost var done := 0;
      while messages[topic] != []
        invariant 0 <= done <= |queue|
        invariant messages == old(messages)[topic := queue[done..]]
        invariant trace == old(trace) + Commits(queue[..done])
        decreases |queue| - done
      {
        assert Commits(queue[..done + 1]) == Commits(queue[..done]) + [Commit(queue[done])];
        var itor := messages[topic];
        trace := trace + [Commit(itor[0])];
        messages := messages[topic := itor[1..]];
        done := done + 1;
      }
      assert queue[..done] == queue;
    }

    method StashByTopic(topic: string)
      requires topic in messages
      modifies this`messages, this`trace, this`batches
      ensures View() == Stash(env, old(View()), topic)
    {
      hide BatchEffects, BatchPut, Commits;
      var queue := messages[topic];
      if |queue| < 1 {
        return;
      }
      ghost var puts: seq<Effect> := [];
      var totalPayloadSize := MessagesSize(queue);
      if totalPayloadSize > 0 {
        PutImage(topic, queue, totalPayloadSize);
        puts := [BatchPut(env, |old(trace)|, Batch(topic, queue))];
      }
      assert trace == old(trace) + puts;
      EraseAll(topic);
      EffectsOfBatch(env, old(trace), Batch(topic, queue), puts);
      batches := batches + [Batch(topic, queue)];
    }

    static lemma EffectsOfBatch(env: Env, before: seq<Effect>, b: Batch, puts: seq<Effect>)
      requires b.msgs != []
      requires puts == if PayloadSize(b.msgs) > 0 then [BatchPut(env, |before|, b)] else []
      ensures before + puts + Commits(b.msgs) == before + BatchEffects(env, |before|, b)
    {
      hide BatchPut, Commits;
    }

    /** The topics in map order, smallest name first. */
    method StashAllTopics()
      modifies this`messages, this`trace, this`batches
      ensures View() == StashAll(env, old(View()))
    {
      hide Stash;
      if |messages| < 1 {
        assert messages.Keys == {};
        return;
      }
      var todo := messages.Keys;
      while todo != {}
        invariant todo <= messages.Keys
        invariant consumed == old(consumed) && messageSizes == old(messageSizes)
        invariant StashKeys(env, View(), todo) == StashAll(env, old(View()))
        decreases todo
      {
        LeastExists(todo);
        var topic :| topic in todo && forall u :: u in todo ==> u == topic || LexLess(topic, u);
        LeastUnique(topic, todo);
        Runs.StashFrame(env, View(), topic);
        StashByTopic(topic);
        todo := todo - {topic};
      }
    }

    /** A message arrives: it is queued and counted, and the topic is stashed if the queue is
        long enough or the counter large enough. */
    method Receive(m: Message)
      requires Valid()
      modifies this`messages, this`messageSizes, this`trace, this`consumed, this`batches
      ensures View() == Arrive(Cfg(), old(View()), m)
      ensures Valid()
    {
      hide Stash;
      var topicName := m.topic;
      messages := messages[topicName := (if topicName in messages then messages[topicName] else []) + [m]];
      consumed := consumed + [m];
      if topicName !in messageSizes {
        messageSizes := messageSizes[topicName := 0];
      }
      messageSizes := messageSizes[topicName := messageSizes[topicName] + |m.payload|];
      assert View() == Enqueue(old(View()), m);
      Runs.StashFrame(env, View(), topicName);
      if |messages[topicName]| >= AsSizeT(limit) {
        StashByTopic(topicName);
        messageSizes := messageSizes[topicName := 0];
      } else {
        if messageSizes[topicName] >= size {
          StashByTopic(topicName);
          messageSizes := messageSizes[topicName := 0];
        }
      }
    }

    /** One call of consume and what follows from it. */
    method RunOnce(event: Event)
      requires Valid()
      modifies this`messages, this`messageSizes, this`trace, this`consumed, this`batches
      ensures View() == Step(Cfg(), old(View()), event)
      ensures Valid()
    {
      hide Arrive;
      match event
      case Nothing =>
      case Arrived(m) =>
        Receive(m);
      case Notice =>
        FrameAll(env, View(), View().queues.Keys);
        StashAllTopics();
    }

    static lemma {:induction false} FrameAll(env: Env, s: State, todo: set<string>)
      ensures StashKeys(env, s, todo).queues.Keys == s.queues.Keys
      ensures StashKeys(env, s, todo).sizes == s.sizes
      decreases todo
    {
      hide Stash;
      if todo != {} {
        Runs.StashFrame(env, s, Least(todo));
        FrameAll(env, Stash(env, s, Least(todo)), todo - {Least(todo)});
      }
    }

    /** The consume loop over a run of events, and then the destructor. */
    method RunAndDestroy(events: seq<Event>)
      requires View() == EMPTY
      modifies this`messages, this`messageSizes, this`trace, this`consumed, this`batches
      ensures View() == Shutdown(Cfg(), events)
    {
      var i := 0;
      while i < |events|
        invariant 0 <= i <= |events|
        invariant Valid()
        invariant View() == Run(Cfg(), events[..i])
      {
        assert events[..i + 1][..i] == events[..i];
        RunOnce(events[i]);
        i := i + 1;
      }
      assert events[..i] == events;
      StashAllTopics();
    }

    // ---------- topics ----------

    method TopicExcluded(topic: string) returns (r: bool)
      ensures r <==> TopicDiscovery.Matched(excludeTopics, topic)
    {
      for itor := 0 to |excludeTopics|
        invariant forall i :: 0 <= i < itor ==> !Wildcard.Glob(CStr(excludeTopics[i]), CStr(topic))
      {
        var hit := Wildcard.StrcmpString(excludeTopics[itor], topic);
        if hit {
          return true;
        }
      }
      return false;
    }

    method TopicAlreadyInSubscriptions(topic: string) returns (r: bool)
      ensures r <==> TopicDiscovery.Matched(topics, topic)
    {
      for itor := 0 to |topics|
        invariant forall i :: 0 <= i < itor ==> !Wildcard.Glob(CStr(topics[i]), CStr(topic))
      {
        var hit := Wildcard.StrcmpString(topics[itor], topic);
        if hit {
          return true;
        }
      }
      return false;
    }

    /** metadata is the list of topic names of the cluster, or None if the request failed. */
    method AutoDiscoverTopics(metadata: Option<seq<string>>)
      modifies this`topics, this`subscribed
      ensures metadata.None? ==> topics == old(topics)
      ensures metadata.Some? ==>
        topics == TopicDiscovery.Discover(old(topics), excludeTopics, metadata.value)
      ensures subscribed == old(subscribed) + if topics != old(topics) then [topics] else []
    {
      hide TopicDiscovery.Matched, TopicDiscovery.Internal;
      var topicsUpdated := false;
      if metadata.Some? {
        var listed := metadata.value;
        var itor := 0;
        while itor != |listed|
          invariant 0 <= itor <= |listed|
          invariant TopicDiscovery.Discover(topics, excludeTopics, listed[itor..])
                 == TopicDiscovery.Discover(old(topics), excludeTopics, listed)
          invariant subscribed == old(subscribed)
          invariant old(topics) <= topics && (topicsUpdated <==> topics != old(topics))
          decreases |listed| - itor
        {
          var t := listed[itor];
          var excluded := TopicExcluded(t);
          var already := TopicAlreadyInSubscriptions(t);
          if !TopicDiscovery.Internal(t) && !excluded && !already {
            topics := topics + [t];
            topicsUpdated := true;
          }
          assert listed[itor..][1..] == listed[itor + 1..];
          itor := itor + 1;
        }
      }
      if topicsUpdated {
        subscribed := subscribed + [topics];
      }
    }
  }
}

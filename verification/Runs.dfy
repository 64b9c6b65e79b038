/** What every run of the batching state machine keeps. */
module Runs {
  import opened Text
  import opened Bytes
  import opened Header
  import opened Image
  import opened Batching

  // ---------- the invariant ----------

  /** Conservation: for every topic, what was consumed is what was stashed followed by what
      is pending. */
  ghost predicate Conserved(s: State) {
    forall t :: OfTopic(s.consumed, t) == Flushed(s.batches, t) + Queue(s, t)
  }

  ghost predicate QueuesProper(s: State) {
    forall t, i :: t in s.queues && 0 <= i < |s.queues[t]| ==> s.queues[t][i].topic == t
  }

  /** The byte counters may overcount the pending payload, never undercount it. */
  ghost predicate Counted(s: State) {
    s.queues.Keys == s.sizes.Keys && forall t :: t in s.queues ==> PayloadSize(s.queues[t]) <= s.sizes[t]
  }

  ghost predicate Inv(env: Env, s: State) {
    Conserved(s) && QueuesProper(s) && Counted(s) && AllProper(s.batches) && s.trace == Effects(env, s.batches)
  }

  lemma FlushedAppend(bs: seq<Batch>, b: Batch, t: string)
    ensures Flushed(bs + [b], t) == Flushed(bs, t) + if b.topic == t then b.msgs else []
  {
    assert (bs + [b])[..|bs|] == bs;
  }

  lemma OfTopicAppend(ms: seq<Message>, m: Message, t: string)
    ensures OfTopic(ms + [m], t) == OfTopic(ms, t) + if m.topic == t then [m] else []
  {
    assert (ms + [m])[..|ms|] == ms;
  }

  lemma StashConserves(env: Env, s: State, t: string)
    requires Conserved(s) && QueuesProper(s)
    ensures Conserved(Stash(env, s, t)) && QueuesProper(Stash(env, s, t))
  {
    hide BatchEffects;
    var q, s' := Queue(s, t), Stash(env, s, t);
    if q != [] {
      forall u
        ensures OfTopic(s'.consumed, u) == Flushed(s'.batches, u) + Queue(s', u)
      {
        FlushedAppend(s.batches, Batch(t, q), u);
        assert OfTopic(s.consumed, u) == Flushed(s.batches, u) + Queue(s, u);
      }
    }
  }

  lemma StashTraces(env: Env, s: State, t: string)
    requires QueuesProper(s) && AllProper(s.batches) && s.trace == Effects(env, s.batches)
    ensures var s' := Stash(env, s, t);
            AllProper(s'.batches) && s'.trace == Effects(env, s'.batches)
  {
    hide BatchEffects;
    var q, s' := Queue(s, t), Stash(env, s, t);
    if q != [] {
      assert Proper(Batch(t, q));
      assert s'.batches[..|s.batches|] == s.batches;
    }
  }

  lemma StashFrame(env: Env, s: State, t: string)
    ensures var s' := Stash(env, s, t);
            && s'.queues.Keys == s.queues.Keys && s'.consumed == s.consumed && s'.sizes == s.sizes
            && forall u :: Queue(s', u) == if u == t then [] else Queue(s, u)
  {
    hide BatchEffects;
  }

  lemma StashCounts(env: Env, s: State, t: string)
    requires Counted(s)
    ensures Counted(Stash(env, s, t))
  {
    hide BatchEffects;
  }

  lemma StashKeeps(env: Env, s: State, t: string)
    requires Inv(env, s)
    ensures Inv(env, Stash(env, s, t))
  {
    hide Stash, Conserved, QueuesProper, Counted, Effects;
    StashConserves(env, s, t);
    StashTraces(env, s, t);
    StashCounts(env, s, t);
  }

  lemma {:induction false} StashKeysKeeps(env: Env, s: State, todo: set<string>)
    requires Inv(env, s)
    ensures var s' := StashKeys(env, s, todo);
            && Inv(env, s')
            && s'.consumed == s.consumed && s'.sizes == s.sizes
            && forall t :: Queue(s', t) == if t in todo then [] else Queue(s, t)
    decreases todo
  {
    hide Inv, Stash, Queue;
    if todo != {} {
      var t := Least(todo);
      StashKeeps(env, s, t);
      StashFrame(env, s, t);
      StashKeysKeeps(env, Stash(env, s, t), todo - {t});
    }
  }

  /** Stashing everything leaves no message pending, and leaves the byte counters alone. */
  lemma StashAllKeeps(env: Env, s: State)
    requires Inv(env, s)
    ensures var s' := StashAll(env, s);
            Inv(env, s') && s'.consumed == s.consumed && s'.sizes == s.sizes && forall t :: Queue(s', t) == []
  {
    StashKeysKeeps(env, s, s.queues.Keys);
  }

  lemma EnqueueConserves(s: State, m: Message)
    requires Conserved(s) && QueuesProper(s)
    ensures Conserved(Enqueue(s, m)) && QueuesProper(Enqueue(s, m))
  {
    var s' := Enqueue(s, m);
    forall t
      ensures OfTopic(s'.consumed, t) == Flushed(s'.batches, t) + Queue(s', t)
    {
      OfTopicAppend(s.consumed, m, t);
      assert OfTopic(s.consumed, t) == Flushed(s.batches, t) + Queue(s, t);
    }
  }

  lemma EnqueueCounts(s: State, m: Message)
    requires Counted(s)
    ensures Counted(Enqueue(s, m))
  {
    PayloadSizeAppend(Queue(s, m.topic), m);
  }

  lemma EnqueueKeeps(env: Env, s: State, m: Message)
    requires Inv(env, s)
    ensures Inv(env, Enqueue(s, m))
  {
    EnqueueConserves(s, m);
    EnqueueCounts(s, m);
  }

  /** Once the queue of a topic is empty its counter may be reset. */
  lemma ResetKeeps(env: Env, s: State, t: string)
    requires Inv(env, s) && Queue(s, t) == [] && t in s.sizes
    ensures Inv(env, s.(sizes := s.sizes[t := 0]))
  {
    hide Effects;
    var s' := s.(sizes := s.sizes[t := 0]);
    assert forall u :: Queue(s', u) == Queue(s, u);
  }

  lemma ArriveKeeps(cfg: Config, s: State, m: Message)
    requires Inv(cfg.env, s)
    ensures Inv(cfg.env, Arrive(cfg, s, m))
    ensures Arrive(cfg, s, m).consumed == s.consumed + [m]
  {
    hide Inv, Stash, Queue;
    var s1 := Enqueue(s, m);
    EnqueueKeeps(cfg.env, s, m);
    StashKeeps(cfg.env, s1, m.topic);
    StashFrame(cfg.env, s1, m.topic);
    ResetKeeps(cfg.env, Stash(cfg.env, s1, m.topic), m.topic);
  }

  lemma StepKeeps(cfg: Config, s: State, e: Event)
    requires Inv(cfg.env, s)
    ensures Inv(cfg.env, Step(cfg, s, e))
    ensures Step(cfg, s, e).consumed == s.consumed + (if e.Arrived? then [e.msg] else [])
  {
    hide Inv, Arrive;
    match e
    case Arrived(m) =>
      ArriveKeeps(cfg, s, m);
    case Notice =>
      StashAllKeeps(cfg.env, s);
    case Nothing =>
  }

  lemma {:induction false} RunKeeps(cfg: Config, es: seq<Event>)
    ensures Inv(cfg.env, Run(cfg, es)) && Run(cfg, es).consumed == Arrivals(es)
    decreases es
  {
    if es != [] {
      RunKeeps(cfg, es[..|es| - 1]);
      StepKeeps(cfg, Run(cfg, es[..|es| - 1]), es[|es| - 1]);
    }
  }

  // ---------- conservation ----------

  /** FIFO conservation over every run: nothing is lost, duplicated or reordered, and after
      the destructor nothing is left pending. */
  lemma Conservation(cfg: Config, es: seq<Event>, t: string)
    ensures OfTopic(Arrivals(es), t) == Flushed(Run(cfg, es).batches, t) + Queue(Run(cfg, es), t)
    ensures OfTopic(Arrivals(es), t) == Flushed(Shutdown(cfg, es).batches, t)
    ensures Queue(Shutdown(cfg, es), t) == []
  {
    RunKeeps(cfg, es);
    StashAllKeeps(cfg.env, Run(cfg, es));
    var end := Shutdown(cfg, es);
    assert OfTopic(end.consumed, t) == Flushed(end.batches, t) + Queue(end, t);
  }

  // ---------- commits ----------

  lemma {:induction false} CommitsInConcat(a: seq<Effect>, b: seq<Effect>, t: string)
    ensures CommitsIn(a + b, t) == CommitsIn(a, t) + CommitsIn(b, t)
    decreases b
  {
    if b == [] {
      assert a + b == a;
    } else {
      CommitsInConcat(a, b[..|b| - 1], t);
      assert (a + b)[..|a + b| - 1] == a + b[..|b| - 1];
    }
  }

  lemma {:induction false} CommitsInCommits(ms: seq<Message>, topic: string, t: string)
    requires forall i :: 0 <= i < |ms| ==> ms[i].topic == topic
    ensures CommitsIn(Commits(ms), t) == if topic == t then ms else []
    decreases ms
  {
    if ms != [] {
      var front := ms[..|ms| - 1];
      CommitsInCommits(front, topic, t);
      assert Commits(ms)[..|ms| - 1] == Commits(front);
      assert ms == front + [ms[|ms| - 1]];
    }
  }

  lemma BatchCommits(env: Env, at: nat, b: Batch, t: string)
    requires Proper(b)
    ensures CommitsIn(BatchEffects(env, at, b), t) == if b.topic == t then b.msgs else []
  {
    var put := if PayloadSize(b.msgs) > 0 then [BatchPut(env, at, b)] else [];
    assert BatchEffects(env, at, b) == put + Commits(b.msgs);
    CommitsInConcat(put, Commits(b.msgs), t);
    CommitsInCommits(b.msgs, b.topic, t);
    assert CommitsIn(put, t) == [] by {
      if put != [] {
        assert put[..0] == [] && put[0].Put?;
      }
    }
  }

  /** Every stashed message is committed once, in the order it was consumed. */
  lemma {:induction false} CommitsAreFlushed(env: Env, bs: seq<Batch>, t: string)
    requires AllProper(bs)
    ensures CommitsIn(Effects(env, bs), t) == Flushed(bs, t)
    decreases bs
  {
    if bs != [] {
      var front, last := bs[..|bs| - 1], bs[|bs| - 1];
      CommitsAreFlushed(env, front, t);
      var at := |Effects(env, front)|;
      CommitsInConcat(Effects(env, front), BatchEffects(env, at, last), t);
      BatchCommits(env, at, last, t);
    }
  }

  lemma {:induction false} CommittedMember(trace: seq<Effect>, m: Message)
    ensures Commit(m) in trace <==> m in CommitsIn(trace, m.topic)
    decreases trace
  {
    if trace != [] {
      CommittedMember(trace[..|trace| - 1], m);
      assert trace == trace[..|trace| - 1] + [trace[|trace| - 1]];
    }
  }

  lemma {:induction false} OfTopicMember(ms: seq<Message>, m: Message, t: string)
    ensures m in OfTopic(ms, t) <==> m in ms && m.topic == t
    decreases ms
  {
    if ms != [] {
      OfTopicMember(ms[..|ms| - 1], m, t);
      assert ms == ms[..|ms| - 1] + [ms[|ms| - 1]];
    }
  }

  lemma {:induction false} OfTopicInOrder(ms: seq<Message>, t: string)
    requires InOrder(ms)
    ensures InOrder(OfTopic(ms, t))
    decreases ms
  {
    if ms != [] {
      var front, last := ms[..|ms| - 1], ms[|ms| - 1];
      OfTopicInOrder(front, t);
      var r, rf := OfTopic(ms, t), OfTopic(front, t);
      forall i, j | 0 <= i < j < |r| && r[i].topic == r[j].topic && r[i].partition == r[j].partition
        ensures r[i].offset < r[j].offset
      {
        if j == |rf| {
          OfTopicMember(front, rf[i], t);
          var k :| 0 <= k < |front| && front[k] == rf[i];
          assert ms[k] == rf[i];
        } else {
          assert r[i] == rf[i] && r[j] == rf[j];
        }
      }
    }
  }

  /** At every moment of a run the commits of a topic are a prefix of what was consumed. */
  lemma CommitsArePrefix(env: Env, s: State, k: nat, t: string)
    requires Inv(env, s) && k <= |s.trace|
    ensures CommitsIn(s.trace[..k], t) <= OfTopic(s.consumed, t)
  {
    assert s.trace == s.trace[..k] + s.trace[k..];
    CommitsInConcat(s.trace[..k], s.trace[k..], t);
    CommitsAreFlushed(env, s.batches, t);
    assert OfTopic(s.consumed, t) == Flushed(s.batches, t) + Queue(s, t);
  }

  ghost predicate Reachable(cfg: Config, es: seq<Event>, s: State) {
    s == Run(cfg, es) || s == Shutdown(cfg, es)
  }

  lemma ReachableInv(cfg: Config, es: seq<Event>, s: State)
    requires Reachable(cfg, es, s)
    ensures Inv(cfg.env, s) && s.consumed == Arrivals(es)
  {
    RunKeeps(cfg, es);
    StashAllKeeps(cfg.env, Run(cfg, es));
  }

  /** Commit safety: if partitions are delivered in offset order, then at every moment of
      every run, also in the middle of a stash, a committed offset is below that of every
      message of the partition that is not committed yet. */
  lemma CommitSafety(cfg: Config, es: seq<Event>, s: State, k: nat, c: Message, m: Message)
    requires Reachable(cfg, es, s) && InOrder(Arrivals(es)) && k <= |s.trace|
    requires Commit(c) in s.trace[..k] && Commit(m) !in s.trace[..k] && m in Arrivals(es)
    requires c.topic == m.topic && c.partition == m.partition
    ensures c.offset < m.offset
  {
    ReachableInv(cfg, es, s);
    var t := c.topic;
    var all, done := OfTopic(s.consumed, t), CommitsIn(s.trace[..k], t);
    CommitsArePrefix(cfg.env, s, k, t);
    CommittedMember(s.trace[..k], c);
    CommittedMember(s.trace[..k], m);
    OfTopicMember(s.consumed, m, t);
    OfTopicInOrder(s.consumed, t);
    assert forall x :: 0 <= x < |done| ==> all[x] == done[x] != m;
    var i :| 0 <= i < |done| && done[i] == c;
    var j :| 0 <= j < |all| && all[j] == m;
    assert all[i] == c;
  }

  lemma PartsDiffer(front: seq<Message>, rest: seq<Message>, j: nat)
    requires InOrder(front + rest) && j < |rest|
    ensures rest[j] !in front
  {
    forall i | 0 <= i < |front|
      ensures front[i] != rest[j]
    {
      assert (front + rest)[i] == front[i] && (front + rest)[|front| + j] == rest[j];
    }
  }

  /** What was consumed of a topic is what is committed followed by what is pending. */
  lemma CommittedThenPending(cfg: Config, es: seq<Event>, s: State, t: string)
    requires Reachable(cfg, es, s)
    ensures OfTopic(Arrivals(es), t) == CommitsIn(s.trace, t) + Queue(s, t)
  {
    hide Effects;
    ReachableInv(cfg, es, s);
    CommitsAreFlushed(cfg.env, s.batches, t);
    assert OfTopic(s.consumed, t) == Flushed(s.batches, t) + Queue(s, t);
  }

  /** A pending message is not committed, at no moment of the run. */
  lemma PendingNotCommitted(cfg: Config, es: seq<Event>, s: State, m: Message)
    requires Reachable(cfg, es, s) && InOrder(Arrivals(es)) && m in Queue(s, m.topic)
    ensures Commit(m) !in s.trace && m in Arrivals(es)
  {
    hide Reachable, Queue, InOrder;
    CommittedThenPending(cfg, es, s, m.topic);
    CommittedMember(s.trace, m);
    OfTopicInOrder(Arrivals(es), m.topic);
    OfTopicMember(Arrivals(es), m, m.topic);
    var queue := Queue(s, m.topic);
    var j :| 0 <= j < |queue| && queue[j] == m;
    assert OfTopic(Arrivals(es), m.topic)[|CommitsIn(s.trace, m.topic)| + j] == m;
    PartsDiffer(CommitsIn(s.trace, m.topic), queue, j);
  }

  /** So no committed offset of a partition is at or past that of a message still pending. */
  lemma PendingSafety(cfg: Config, es: seq<Event>, s: State, c: Message, m: Message)
    requires Reachable(cfg, es, s) && InOrder(Arrivals(es))
    requires Commit(c) in s.trace && m in Queue(s, m.topic)
    requires c.topic == m.topic && c.partition == m.partition
    ensures c.offset < m.offset
  {
    PendingNotCommitted(cfg, es, s, m);
    assert s.trace[..|s.trace|] == s.trace;
    CommitSafety(cfg, es, s, |s.trace|, c, m);
  }

  /** The batch of a committed message, and the put that came before the commit. */
  ghost predicate ArchivedFirst(bs: seq<Batch>, trace: seq<Effect>, k: nat)
    requires k < |trace| && trace[k].Commit?
  {
    exists i :: 0 <= i < |bs| && trace[k].msg in bs[i].msgs &&
      (PayloadSize(bs[i].msgs) == 0 || PutBefore(trace, k, bs[i].msgs))
  }

  ghost predicate PutBefore(trace: seq<Effect>, k: nat, ms: seq<Message>)
    requires k <= |trace|
  {
    exists j :: 0 <= j < k && trace[j].Put? && trace[j].body == BatchImage(ms) && trace[j].numOfMsgs == NatText(|ms|)
  }

  lemma {:induction false} EffectsArchiveFirst(env: Env, bs: seq<Batch>, k: nat)
    requires AllProper(bs) && k < |Effects(env, bs)| && Effects(env, bs)[k].Commit?
    ensures ArchivedFirst(bs, Effects(env, bs), k)
    decreases bs
  {
    hide BatchImage, BatchPut;
    var n := |bs| - 1;
    var front, last := bs[..n], bs[n];
    var before, trace := Effects(env, front), Effects(env, bs);
    if k < |before| {
      EffectsArchiveFirst(env, front, k);
      var i :| 0 <= i < |front| && before[k].msg in front[i].msgs &&
        (PayloadSize(front[i].msgs) == 0 || PutBefore(before, k, front[i].msgs));
      if PayloadSize(front[i].msgs) > 0 {
        var j :| 0 <= j < k && before[j].Put? && before[j].body == BatchImage(front[i].msgs) &&
          before[j].numOfMsgs == NatText(|front[i].msgs|);
        assert trace[j] == before[j];
        assert PutBefore(trace, k, front[i].msgs);
      }
      assert bs[i] == front[i];
    } else {
      var tail := BatchEffects(env, |before|, last);
      assert trace[k] == tail[k - |before|];
      if PayloadSize(last.msgs) > 0 {
        assert trace[|before|] == tail[0] == BatchPut(env, |before|, last);
        assert PutBefore(trace, k, last.msgs);
      }
      assert trace[k].msg in bs[n].msgs;
    }
  }

  /** Archive before commit: in every run each committed message belongs to a batch whose
      whole image was handed to put earlier, unless that batch holds no payload byte at all. */
  lemma ArchiveBeforeCommit(cfg: Config, es: seq<Event>, s: State, k: nat)
    requires Reachable(cfg, es, s) && k < |s.trace| && s.trace[k].Commit?
    ensures ArchivedFirst(s.batches, s.trace, k)
  {
    ReachableInv(cfg, es, s);
    EffectsArchiveFirst(cfg.env, s.batches, k);
  }

  // ---------- puts ----------

  function PutsIn(trace: seq<Effect>): seq<Effect> {
    if trace == [] then []
    else PutsIn(trace[..|trace| - 1]) + if trace[|trace| - 1].Put? then [trace[|trace| - 1]] else []
  }

  /** How many calls precede those of batch i. */
  ghost function CallsBefore(env: Env, bs: seq<Batch>, i: nat): nat
    requires AllProper(bs) && i <= |bs|
  {
    assert AllProper(bs[..i]);
    |Effects(env, bs[..i])|
  }

  /** One put for each batch with payload, in the order of the batches. */
  ghost function BatchPuts(env: Env, bs: seq<Batch>): seq<Effect>
    requires AllProper(bs)
  {
    if bs == [] then []
    else
      var n := |bs| - 1;
      assert Proper(bs[n]);
      BatchPuts(env, bs[..n]) +
      if PayloadSize(bs[n].msgs) > 0 then [BatchPut(env, CallsBefore(env, bs, n), bs[n])] else []
  }

  lemma {:induction false} PutsInConcat(a: seq<Effect>, b: seq<Effect>)
    ensures PutsIn(a + b) == PutsIn(a) + PutsIn(b)
    decreases b
  {
    if b == [] {
      assert a + b == a;
    } else {
      PutsInConcat(a, b[..|b| - 1]);
      assert (a + b)[..|a + b| - 1] == a + b[..|b| - 1];
    }
  }

  lemma {:induction false} NoPutsInCommits(ms: seq<Message>)
    ensures PutsIn(Commits(ms)) == []
    decreases ms
  {
    if ms != [] {
      NoPutsInCommits(ms[..|ms| - 1]);
      assert Commits(ms)[..|ms| - 1] == Commits(ms[..|ms| - 1]);
    }
  }

  lemma PutsOfBatch(env: Env, at: nat, b: Batch)
    requires Proper(b)
    ensures PutsIn(BatchEffects(env, at, b)) == if PayloadSize(b.msgs) > 0 then [BatchPut(env, at, b)] else []
  {
    hide BatchPut, Commits;
    var put := if PayloadSize(b.msgs) > 0 then [BatchPut(env, at, b)] else [];
    PutsInConcat(put, Commits(b.msgs));
    NoPutsInCommits(b.msgs);
    if put != [] {
      assert put[..0] == [] && put[0].Put?;
    }
  }

  lemma {:induction false} PutsOfEffects(env: Env, bs: seq<Batch>)
    requires AllProper(bs)
    ensures PutsIn(Effects(env, bs)) == BatchPuts(env, bs)
    decreases bs
  {
    hide BatchPut, BatchEffects;
    if bs != [] {
      var n := |bs| - 1;
      PutsOfEffects(env, bs[..n]);
      assert Proper(bs[n]);
      PutsInConcat(Effects(env, bs[..n]), BatchEffects(env, CallsBefore(env, bs, n), bs[n]));
      PutsOfBatch(env, CallsBefore(env, bs, n), bs[n]);
    }
  }

  /** The puts of a run are exactly those of the batches that hold a payload byte, one each and
      in order: a batch without payload is committed and never archived. */
  lemma PutsArePayloadBatches(cfg: Config, es: seq<Event>, s: State)
    requires Reachable(cfg, es, s)
    ensures AllProper(s.batches) && PutsIn(s.trace) == BatchPuts(cfg.env, s.batches)
  {
    hide BatchPuts;
    ReachableInv(cfg, es, s);
    PutsOfEffects(cfg.env, s.batches);
  }

  lemma {:induction false} EffectsPrefix(env: Env, bs: seq<Batch>, n: nat)
    requires AllProper(bs) && n <= |bs|
    ensures AllProper(bs[..n]) && Effects(env, bs[..n]) <= Effects(env, bs)
    decreases |bs| - n
  {
    hide BatchEffects;
    if n == |bs| {
      assert bs[..n] == bs;
    } else {
      assert bs[..n + 1][..n] == bs[..n];
      EffectsPrefix(env, bs, n + 1);
    }
  }

  /** The calls of batch i lie together, behind those of the batches in front of it. */
  lemma CallsOfBatch(env: Env, bs: seq<Batch>, i: nat)
    requires AllProper(bs) && i < |bs|
    ensures Proper(bs[i])
    ensures var at, calls := CallsBefore(env, bs, i), BatchEffects(env, CallsBefore(env, bs, i), bs[i]);
            CallsBefore(env, bs, i + 1) == at + |calls| <= |Effects(env, bs)| &&
            Effects(env, bs)[at..at + |calls|] == calls
  {
    hide BatchEffects;
    EffectsPrefix(env, bs, i);
    EffectsPrefix(env, bs, i + 1);
    assert bs[..i + 1][..i] == bs[..i];
    assert Proper(bs[i]);
    var at := CallsBefore(env, bs, i);
    hide Effects;
    Placed(Effects(env, bs), Effects(env, bs[..i]), BatchEffects(env, at, bs[i]));
  }

  lemma CallsShape(env: Env, at: nat, b: Batch, puts: nat)
    requires Proper(b) && puts == if PayloadSize(b.msgs) > 0 then 1 else 0
    ensures var calls := BatchEffects(env, at, b);
            && |calls| == puts + |b.msgs| && calls[puts..] == Commits(b.msgs)
            && calls[0] == if puts == 1 then BatchPut(env, at, b) else Commit(b.msgs[0])
  {
    hide BatchPut, PayloadSize;
  }

  lemma SliceParts<T>(whole: seq<T>, at: nat, x: seq<T>, k: nat)
    requires at + |x| <= |whole| && whole[at..at + |x|] == x && k <= |x| && x != []
    ensures whole[at] == x[0] && whole[at + k..at + |x|] == x[k..]
  {
    assert whole[at..at + |x|][0] == whole[at];
  }

  lemma TraceIsEffects(cfg: Config, es: seq<Event>, s: State)
    requires Reachable(cfg, es, s)
    ensures AllProper(s.batches) && s.trace == Effects(cfg.env, s.batches)
  {
    hide Reachable, Effects;
    ReachableInv(cfg, es, s);
  }

  /** The first call of a batch is its put exactly if the batch holds a payload byte; its
      commits follow, one for each message. */
  lemma PutIffPayload(cfg: Config, es: seq<Event>, s: State, i: nat, at: nat, puts: nat)
    requires Reachable(cfg, es, s) && i < |s.batches| && AllProper(s.batches)
    requires at == CallsBefore(cfg.env, s.batches, i)
    requires puts == if PayloadSize(s.batches[i].msgs) > 0 then 1 else 0
    ensures at + puts + |s.batches[i].msgs| <= |s.trace|
    ensures s.trace[at].Put? <==> PayloadSize(s.batches[i].msgs) > 0
    ensures s.trace[at].Put? ==> s.trace[at].body == BatchImage(s.batches[i].msgs)
    ensures s.trace[at + puts..at + puts + |s.batches[i].msgs|] == Commits(s.batches[i].msgs)
  {
    hide *;
    TraceIsEffects(cfg, es, s);
    FirstCall(cfg.env, s.batches, i, at, puts, s.trace);
  }

  lemma FirstCall(env: Env, bs: seq<Batch>, i: nat, at: nat, puts: nat, trace: seq<Effect>)
    requires AllProper(bs) && i < |bs| && at == CallsBefore(env, bs, i) && trace == Effects(env, bs)
    requires puts == if PayloadSize(bs[i].msgs) > 0 then 1 else 0
    ensures at + puts + |bs[i].msgs| <= |trace|
    ensures trace[at].Put? <==> PayloadSize(bs[i].msgs) > 0
    ensures trace[at].Put? ==> trace[at].body == BatchImage(bs[i].msgs)
    ensures trace[at + puts..at + puts + |bs[i].msgs|] == Commits(bs[i].msgs)
  {
    hide *;
    CallsOfBatch(env, bs, i);
    ProperNotEmpty(bs[i]);
    var calls := BatchEffects(env, at, bs[i]);
    CallsShape(env, at, bs[i], puts);
    SliceParts(trace, at, calls, puts);
  }

  lemma ProperNotEmpty(b: Batch)
    requires Proper(b)
    ensures b.msgs != []
  {
  }

  lemma OneArrival(m: Message)
    ensures Arrivals([Arrived(m)]) == [m]
  {
    assert [Arrived(m)][..0] == [];
  }

  /** A run of a single message without payload: it is committed, and nothing was put. */
  lemma EmptyMessageCommitted(cfg: Config, m: Message)
    requires m.payload == []
    ensures Shutdown(cfg, [Arrived(m)]).trace == [Commit(m)]
  {
    var es := [Arrived(m)];
    OneArrival(m);
    hide Shutdown, Arrivals;
    var s := Shutdown(cfg, es);
    ReachableInv(cfg, es, s);
    forall t
      ensures Flushed(s.batches, t) == if m.topic == t then [m] else []
    {
      Conservation(cfg, es, t);
      assert [m][..0] == [];
    }
    OnlyMessage(cfg.env, s.batches, m);
  }

  lemma SomethingFlushed(bs: seq<Batch>)
    requires AllProper(bs) && bs != []
    ensures Flushed(bs, bs[|bs| - 1].topic) != []
  {
    assert Proper(bs[|bs| - 1]);
  }

  lemma OneBatch(bs: seq<Batch>, m: Message)
    requires AllProper(bs) && forall t :: Flushed(bs, t) == if m.topic == t then [m] else []
    ensures bs == [Batch(m.topic, [m])]
  {
    assert Flushed(bs, m.topic) == [m];
    var n := |bs| - 1;
    var front, b := bs[..n], bs[n];
    assert Proper(b);
    assert Flushed(bs, b.topic) == Flushed(front, b.topic) + b.msgs;
    assert b.topic == m.topic && b.msgs == [m];
    assert forall u :: Flushed(bs, u) == Flushed(front, u) + if b.topic == u then b.msgs else [];
    if front != [] {
      SomethingFlushed(front);
    }
  }

  /** If one message without payload is all that was stashed, its commit is the only call. */
  lemma OnlyMessage(env: Env, bs: seq<Batch>, m: Message)
    requires AllProper(bs) && m.payload == []
    requires forall t :: Flushed(bs, t) == if m.topic == t then [m] else []
    ensures Effects(env, bs) == [Commit(m)]
  {
    hide BatchPut;
    OneBatch(bs, m);
    assert bs[..0] == [] && [m][..0] == [];
    assert PayloadSize([m]) == 0;
    assert Commits([m]) == [Commit(m)];
  }

  // ---------- bounds ----------

  /** Before a message is added: room for it. */
  ghost predicate Roomy(cfg: Config, s: State) {
    && (cfg.limit >= 1 ==> forall t :: t in s.queues ==> |s.queues[t]| < cfg.limit)
    && (cfg.size >= 1 ==> forall t :: t in s.sizes ==> s.sizes[t] < cfg.size)
  }

  /** No batch is longer than the limit, and its last message is the only one that can
      carry it past the byte size. */
  ghost predicate Bounded(cfg: Config, b: Batch) {
    && b.msgs != []
    && (cfg.limit >= 1 ==> |b.msgs| <= cfg.limit)
    && (cfg.size >= 1 ==> PayloadSize(b.msgs) < cfg.size + |b.msgs[|b.msgs| - 1].payload|)
  }

  ghost predicate AllBounded(cfg: Config, bs: seq<Batch>) {
    forall i :: 0 <= i < |bs| ==> Bounded(cfg, bs[i])
  }

  ghost predicate Bounds(cfg: Config, s: State) {
    Roomy(cfg, s) && AllBounded(cfg, s.batches)
  }

  lemma StashBounds(cfg: Config, s: State, t: string)
    requires Counted(s) && Bounds(cfg, s)
    ensures Bounds(cfg, Stash(cfg.env, s, t))
  {
    hide BatchEffects;
    if Queue(s, t) != [] {
      assert Bounded(cfg, Batch(t, Queue(s, t)));
    }
  }

  lemma {:induction false} StashKeysBounds(cfg: Config, s: State, todo: set<string>)
    requires Inv(cfg.env, s) && Bounds(cfg, s)
    ensures Bounds(cfg, StashKeys(cfg.env, s, todo))
    decreases todo
  {
    hide Bounds, Stash;
    if todo != {} {
      var t := Least(todo);
      StashKeeps(cfg.env, s, t);
      StashBounds(cfg, s, t);
      StashKeysBounds(cfg, Stash(cfg.env, s, t), todo - {t});
    }
  }

  lemma ArriveRoomy(cfg: Config, s: State, m: Message)
    requires Roomy(cfg, s)
    ensures Roomy(cfg, Arrive(cfg, s, m))
  {
    hide BatchEffects;
  }

  lemma ArriveBatch(cfg: Config, s: State, m: Message)
    requires Counted(s) && Roomy(cfg, s)
    ensures Bounded(cfg, Batch(m.topic, Queue(s, m.topic) + [m]))
  {
    PayloadSizeAppend(Queue(s, m.topic), m);
  }

  lemma ArriveBounds(cfg: Config, s: State, m: Message)
    requires Counted(s) && Bounds(cfg, s)
    ensures Bounds(cfg, Arrive(cfg, s, m))
  {
    hide BatchEffects, Roomy, Bounded, Counted;
    ArriveRoomy(cfg, s, m);
    ArriveBatch(cfg, s, m);
  }

  lemma StepBounds(cfg: Config, s: State, e: Event)
    requires Inv(cfg.env, s) && Bounds(cfg, s)
    ensures Bounds(cfg, Step(cfg, s, e))
  {
    hide Bounds, Arrive;
    match e
    case Arrived(m) =>
      ArriveBounds(cfg, s, m);
    case Notice =>
      StashKeysBounds(cfg, s, s.queues.Keys);
    case Nothing =>
  }

  lemma {:induction false} RunBounds(cfg: Config, es: seq<Event>)
    ensures Bounds(cfg, Run(cfg, es))
    decreases es
  {
    if es != [] {
      RunBounds(cfg, es[..|es| - 1]);
      RunKeeps(cfg, es[..|es| - 1]);
      StepBounds(cfg, Run(cfg, es[..|es| - 1]), es[|es| - 1]);
    }
  }

  /** In every reachable state the pending bytes are at most the counter, the counter is
      below the bundle size, fewer messages than the limit are pending, and every batch
      stashed so far is within its bounds. A flush for size can come early, never late. */
  lemma BatchBounds(cfg: Config, es: seq<Event>, s: State, t: string)
    requires Reachable(cfg, es, s)
    ensures t in s.queues ==> t in s.sizes && PayloadSize(s.queues[t]) <= s.sizes[t]
    ensures cfg.size >= 1 && t in s.sizes ==> s.sizes[t] < cfg.size
    ensures cfg.limit >= 1 ==> |Queue(s, t)| < cfg.limit
    ensures AllBounded(cfg, s.batches)
  {
    ReachableInv(cfg, es, s);
    RunBounds(cfg, es);
    RunKeeps(cfg, es);
    StashKeysBounds(cfg, Run(cfg, es), Run(cfg, es).queues.Keys);
  }

  // ---------- no flush without cause ----------

  /** A timeout, end of partition or error leaves nothing pending. */
  lemma NoticeFlushes(cfg: Config, es: seq<Event>, t: string)
    ensures Queue(Run(cfg, es + [Notice]), t) == []
    ensures Flushed(Run(cfg, es + [Notice]).batches, t) == OfTopic(Arrivals(es), t)
  {
    RunKeeps(cfg, es);
    assert (es + [Notice])[..|es|] == es;
    StashAllKeeps(cfg.env, Run(cfg, es));
    var s := Run(cfg, es + [Notice]);
    assert OfTopic(s.consumed, t) == Flushed(s.batches, t) + Queue(s, t);
  }

  /** The batch has the number of messages, or the bytes, that force a flush. */
  ghost predicate Filled(cfg: Config, b: Batch) {
    |b.msgs| >= AsSizeT(cfg.limit) || PayloadSize(b.msgs) >= cfg.size
  }

  ghost predicate AllFilled(cfg: Config, bs: seq<Batch>) {
    forall i :: 0 <= i < |bs| ==> Filled(cfg, bs[i])
  }

  /** The counters are exact. */
  ghost predicate Exact(s: State) {
    s.queues.Keys == s.sizes.Keys && forall t :: t in s.queues ==> PayloadSize(s.queues[t]) == s.sizes[t]
  }

  lemma ArriveExact(cfg: Config, s: State, m: Message)
    requires Exact(s)
    ensures Exact(Arrive(cfg, s, m))
  {
    hide BatchEffects;
    PayloadSizeAppend(Queue(s, m.topic), m);
    assert Exact(Enqueue(s, m));
    assert PayloadSize([]) == 0;
    hide PayloadSize, Full;
  }

  lemma ArriveFilled(cfg: Config, s: State, m: Message)
    requires Exact(s) && AllFilled(cfg, s.batches)
    ensures AllFilled(cfg, Arrive(cfg, s, m).batches)
  {
    hide BatchEffects;
    PayloadSizeAppend(Queue(s, m.topic), m);
    var b := Batch(m.topic, Queue(s, m.topic) + [m]);
    assert Full(cfg, Enqueue(s, m), m.topic) ==> Filled(cfg, b);
  }

  /** As long as no timeout, end of partition or error intervenes, the counters are exact and
      every batch is full: it has the limit of messages or the bundle size of bytes. */
  lemma {:induction false} FullBatches(cfg: Config, es: seq<Event>)
    requires forall i :: 0 <= i < |es| ==> es[i] != Notice
    ensures Exact(Run(cfg, es)) && AllFilled(cfg, Run(cfg, es).batches)
    decreases es
  {
    hide Arrive, Exact, AllFilled;
    if es == [] {
      EmptyExact(cfg);
    } else {
      var s, e := Run(cfg, es[..|es| - 1]), es[|es| - 1];
      FullBatches(cfg, es[..|es| - 1]);
      if e.Arrived? {
        ArriveExact(cfg, s, e.msg);
        ArriveFilled(cfg, s, e.msg);
      }
    }
  }

  lemma EmptyExact(cfg: Config)
    ensures Exact(EMPTY) && AllFilled(cfg, EMPTY.batches)
  {
  }
}

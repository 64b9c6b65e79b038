/** The batching and commit state machine of k3backup, as functions on states. */
module Batching {
  import opened Text
  import opened Bytes
  import opened Header
  import opened Image
  import opened Keys

  /** What the outside world answers: local times, and the seed and random number drawn for
      a put, by the number of outside calls made before it. */
  datatype Env = Env(localTime: int -> Civil, seed: nat -> nat, rnd: nat -> nat)

  datatype Config = Config(limit: int32, size: int32, env: Env)

  /** What consume returns: a message; a timeout, end of partition or other error; or null. */
  datatype Event = Arrived(msg: Message) | Notice | Nothing

  /** A call to the outside: an attempt to put an object into S3, or an offset commit. */
  datatype Effect =
    | Put(key: string, body: seq<byte>, numOfMsgs: string)
    | Commit(msg: Message)

  datatype Batch = Batch(topic: string, msgs: seq<Message>)

  /** The two maps of the program, and three histories: the messages consumed, the batches
      stashed, and the calls made to the outside. */
  datatype State = State(
    queues: map<string, seq<Message>>,
    sizes: map<string, int>,
    consumed: seq<Message>,
    batches: seq<Batch>,
    trace: seq<Effect>)

  const EMPTY := State(map[], map[], [], [], [])

  function Queue(s: State, t: string): seq<Message> {
    if t in s.queues then s.queues[t] else []
  }

  // ---------- stashing ----------

  /** Milliseconds to seconds, rounded towards zero as C++ divides. */
  function WholeSeconds(ms: int): (s: int)
    ensures ms >= 0 ==> 1000 * s <= ms < 1000 * s + 1000
    ensures ms < 0 ==> 1000 * s - 1000 < ms <= 1000 * s <= 0
  {
    if ms >= 0 then ms / 1000 else -((-ms) / 1000)
  }

  /** The put of a batch, after `at` earlier calls: the key carries the time of the last message. */
  function BatchPut(env: Env, at: nat, b: Batch): (e: Effect)
    requires b.msgs != []
    ensures e.Put? && e.body == BatchImage(b.msgs) && e.numOfMsgs == NatText(|b.msgs|)
  {
    var last := b.msgs[|b.msgs| - 1];
    Put(StashKey(b.topic, env.localTime(WholeSeconds(last.timestamp)), env.seed(at), env.rnd(at)),
        BatchImage(b.msgs), NatText(|b.msgs|))
  }

  function Commits(ms: seq<Message>): (r: seq<Effect>)
    ensures |r| == |ms|
  {
    seq(|ms|, i requires 0 <= i < |ms| => Commit(ms[i]))
  }

  /** One put, unless every payload is empty, and then the commits in order. */
  function BatchEffects(env: Env, at: nat, b: Batch): seq<Effect>
    requires b.msgs != []
  {
    (if PayloadSize(b.msgs) > 0 then [BatchPut(env, at, b)] else []) + Commits(b.msgs)
  }

  function Stash(env: Env, s: State, t: string): State {
    var q := Queue(s, t);
    if q == [] then s
    else
      var b := Batch(t, q);
      s.(queues := s.queues[t := []], batches := s.batches + [b],
         trace := s.trace + BatchEffects(env, |s.trace|, b))
  }

  /** Stashing the given topics in the order of the map. */
  ghost function StashKeys(env: Env, s: State, todo: set<string>): State
    decreases todo
  {
    if todo == {} then s
    else StashKeys(env, Stash(env, s, Least(todo)), todo - {Least(todo)})
  }

  ghost function StashAll(env: Env, s: State): State {
    StashKeys(env, s, s.queues.Keys)
  }

  // ---------- steps and runs ----------

  /** The limit as it is compared with a size_t: negative limits become huge. */
  function AsSizeT(limit: int32): nat {
    if limit < 0 then limit + 0x1_0000_0000_0000_0000 else limit
  }

  /** The message queued and counted. */
  function Enqueue(s: State, m: Message): State {
    var t := m.topic;
    s.(queues := s.queues[t := Queue(s, t) + [m]],
       sizes := s.sizes[t := (if t in s.sizes then s.sizes[t] else 0) + |m.payload|],
       consumed := s.consumed + [m])
  }

  predicate Full(cfg: Config, s: State, t: string)
    requires t in s.queues && t in s.sizes
  {
    |s.queues[t]| >= AsSizeT(cfg.limit) || s.sizes[t] >= cfg.size
  }

  function Arrive(cfg: Config, s: State, m: Message): State {
    var s1 := Enqueue(s, m);
    if Full(cfg, s1, m.topic) then Stash(cfg.env, s1, m.topic).(sizes := s1.sizes[m.topic := 0]) else s1
  }

  ghost function Step(cfg: Config, s: State, e: Event): State {
    match e
    case Arrived(m) => Arrive(cfg, s, m)
    case Notice => StashAll(cfg.env, s)
    case Nothing => s
  }

  ghost function Run(cfg: Config, es: seq<Event>): State {
    if es == [] then EMPTY else Step(cfg, Run(cfg, es[..|es| - 1]), es[|es| - 1])
  }

  /** A run that ends in the destructor: on shutdown, or for a memory-limit restart. */
  ghost function Shutdown(cfg: Config, es: seq<Event>): State {
    StashAll(cfg.env, Run(cfg, es))
  }

  function Arrivals(es: seq<Event>): seq<Message> {
    if es == [] then []
    else Arrivals(es[..|es| - 1]) + if es[|es| - 1].Arrived? then [es[|es| - 1].msg] else []
  }

  // ---------- projections ----------

  function OfTopic(ms: seq<Message>, t: string): seq<Message> {
    if ms == [] then []
    else OfTopic(ms[..|ms| - 1], t) + if ms[|ms| - 1].topic == t then [ms[|ms| - 1]] else []
  }

  /** All messages of the stashed batches of a topic, in order. */
  function Flushed(bs: seq<Batch>, t: string): seq<Message> {
    if bs == [] then []
    else Flushed(bs[..|bs| - 1], t) + if bs[|bs| - 1].topic == t then bs[|bs| - 1].msgs else []
  }

  ghost predicate Proper(b: Batch) {
    b.msgs != [] && forall i :: 0 <= i < |b.msgs| ==> b.msgs[i].topic == b.topic
  }

  ghost predicate AllProper(bs: seq<Batch>) {
    forall i :: 0 <= i < |bs| ==> Proper(bs[i])
  }

  /** The calls a list of batches makes, one batch after the other. */
  ghost function Effects(env: Env, bs: seq<Batch>): seq<Effect>
    requires AllProper(bs)
  {
    if bs == [] then []
    else
      var front := Effects(env, bs[..|bs| - 1]);
      assert Proper(bs[|bs| - 1]);
      front + BatchEffects(env, |front|, bs[|bs| - 1])
  }

  /** The committed messages of a topic, in commit order. */
  function CommitsIn(trace: seq<Effect>, t: string): seq<Message> {
    if trace == [] then []
    else
      var last := trace[|trace| - 1];
      CommitsIn(trace[..|trace| - 1], t) + if last.Commit? && last.msg.topic == t then [last.msg] else []
  }

  /** Within a partition of a topic, offsets increase. */
  ghost predicate InOrder(ms: seq<Message>) {
    forall i, j :: 0 <= i < j < |ms| && ms[i].topic == ms[j].topic && ms[i].partition == ms[j].partition ==>
      ms[i].offset < ms[j].offset
  }
}

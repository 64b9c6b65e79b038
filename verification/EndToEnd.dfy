/** From consuming a message to producing it again. */
module EndToEnd {
  import opened Text
  import opened Bytes
  import opened Header
  import opened Image
  import opened Batching
  import opened Runs
  import opened Discovery
  import opened Replay
  import Keys
  import Paging
  import Time = MessageTime
  import TimeOrder

  // ---------- the objects a run leaves behind ----------

  /** The objects put by a sequence of calls, if every put succeeds. */
  function StoreOf(trace: seq<Effect>): map<string, seq<byte>> {
    if trace == [] then map[]
    else
      var front, last := StoreOf(trace[..|trace| - 1]), trace[|trace| - 1];
      if last.Put? then front[last.key := last.body] else front
  }

  /** The key batch i is put under. */
  ghost function BatchKey(env: Env, bs: seq<Batch>, i: nat): string
    requires AllProper(bs) && i < |bs|
  {
    assert Proper(bs[i]);
    BatchPut(env, CallsBefore(env, bs, i), bs[i]).key
  }

  /** The messages behind each key. */
  ghost function ContentOf(env: Env, bs: seq<Batch>): map<string, seq<Message>>
    requires AllProper(bs)
  {
    if bs == [] then map[]
    else
      var n := |bs| - 1;
      var front := ContentOf(env, bs[..n]);
      if PayloadSize(bs[n].msgs) > 0 then front[BatchKey(env, bs, n) := bs[n].msgs] else front
  }

  /** Every object of the store is the image of the messages given for its key. */
  ghost predicate HoldsImages(store: map<string, seq<byte>>, content: map<string, seq<Message>>) {
    && content.Keys == store.Keys
    && forall key :: key in store ==> SizesFit(content[key]) && store[key] == BatchImage(content[key])
  }

  ghost predicate AllSizesFit(bs: seq<Batch>) {
    forall i :: 0 <= i < |bs| ==> SizesFit(bs[i].msgs)
  }

  /** Object keys are never drawn twice in a run. */
  ghost predicate FreshKeys(env: Env, bs: seq<Batch>) {
    AllProper(bs) &&
    forall i, j :: 0 <= i < j < |bs| && PayloadSize(bs[i].msgs) > 0 && PayloadSize(bs[j].msgs) > 0 ==>
      BatchKey(env, bs, i) != BatchKey(env, bs, j)
  }

  lemma {:induction false} StoreOfCommits(before: seq<Effect>, ms: seq<Message>)
    ensures StoreOf(before + Commits(ms)) == StoreOf(before)
    decreases ms
  {
    if ms == [] {
      assert before + Commits(ms) == before;
    } else {
      var front := ms[..|ms| - 1];
      StoreOfCommits(before, front);
      var all := before + Commits(ms);
      assert all[..|all| - 1] == before + Commits(front);
    }
  }

  lemma StoreOfBatch(env: Env, before: seq<Effect>, b: Batch)
    requires Proper(b)
    ensures StoreOf(before + BatchEffects(env, |before|, b)) ==
            if PayloadSize(b.msgs) > 0
            then StoreOf(before)[BatchPut(env, |before|, b).key := BatchImage(b.msgs)]
            else StoreOf(before)
  {
    hide BatchPut, BatchImage, Commits;
    if PayloadSize(b.msgs) > 0 {
      StoreOfPut(before, BatchPut(env, |before|, b));
      Associative(before, [BatchPut(env, |before|, b)], Commits(b.msgs));
      hide StoreOf;
      StoreOfCommits(before + [BatchPut(env, |before|, b)], b.msgs);
    } else {
      assert BatchEffects(env, |before|, b) == Commits(b.msgs);
      StoreOfCommits(before, b.msgs);
    }
  }

  lemma StoreOfPut(before: seq<Effect>, put: Effect)
    requires put.Put?
    ensures StoreOf(before + [put]) == StoreOf(before)[put.key := put.body]
  {
    assert (before + [put])[..|before|] == before;
  }

  lemma Associative<T>(a: seq<T>, b: seq<T>, c: seq<T>)
    ensures (a + b) + c == a + (b + c)
  {
  }

  /** The store of a run holds the images of its batches with payload. */
  lemma {:induction false} RunContent(env: Env, bs: seq<Batch>)
    requires AllProper(bs) && AllSizesFit(bs)
    ensures HoldsImages(StoreOf(Effects(env, bs)), ContentOf(env, bs))
    decreases bs
  {
    hide BatchEffects, BatchPut, BatchImage, SizesFit, StoreOf;
    if bs == [] {
      EmptyStore();
    } else {
      var n := |bs| - 1;
      RunContent(env, bs[..n]);
      assert Proper(bs[n]);
      StoreOfBatch(env, Effects(env, bs[..n]), bs[n]);
    }
  }

  lemma EmptyStore()
    ensures StoreOf([]) == map[]
  {
  }

  lemma BatchKeyOfFront(env: Env, bs: seq<Batch>, n: nat, j: nat)
    requires AllProper(bs) && j < n <= |bs|
    ensures AllProper(bs[..n]) && BatchKey(env, bs[..n], j) == BatchKey(env, bs, j)
  {
    hide BatchPut, Effects;
    assert bs[..n][..j] == bs[..j];
  }

  lemma FreshKeysOfFront(env: Env, bs: seq<Batch>, n: nat)
    requires FreshKeys(env, bs) && n <= |bs|
    ensures FreshKeys(env, bs[..n])
  {
    hide BatchKey, PayloadSize;
    forall j | 0 <= j < n
      ensures BatchKey(env, bs[..n], j) == BatchKey(env, bs, j)
    {
      BatchKeyOfFront(env, bs, n, j);
    }
  }

  /** With fresh keys each batch with payload is found under its own key. */
  lemma {:induction false} BatchContent(env: Env, bs: seq<Batch>, i: nat)
    requires FreshKeys(env, bs) && i < |bs| && PayloadSize(bs[i].msgs) > 0
    ensures BatchKey(env, bs, i) in ContentOf(env, bs) && ContentOf(env, bs)[BatchKey(env, bs, i)] == bs[i].msgs
    decreases bs
  {
    hide BatchKey, PayloadSize;
    var n := |bs| - 1;
    if i < n {
      FreshKeysOfFront(env, bs, n);
      BatchKeyOfFront(env, bs, n, i);
      BatchContent(env, bs[..n], i);
    }
  }

  lemma {:induction false} SomePayload(ms: seq<Message>, k: nat)
    requires k < |ms| && ms[k].payload != []
    ensures PayloadSize(ms) > 0
    decreases ms
  {
    if k < |ms| - 1 {
      SomePayload(ms[..|ms| - 1], k);
    }
  }

  lemma {:induction false} FlushedMember(bs: seq<Batch>, t: string, m: Message) returns (i: nat, k: nat)
    requires m in Flushed(bs, t)
    ensures i < |bs| && k < |bs[i].msgs| && bs[i].msgs[k] == m
    decreases bs
  {
    var n := |bs| - 1;
    if m in Flushed(bs[..n], t) {
      i, k := FlushedMember(bs[..n], t, m);
    } else {
      i := n;
      k :| 0 <= k < |bs[n].msgs| && bs[n].msgs[k] == m;
    }
  }

  /** Everything consumed is in some batch when the run has ended, and if it has a payload
      byte that batch is found in the store, under its key. */
  lemma ConsumedIsStored(cfg: Config, es: seq<Event>, end: State, m: Message) returns (i: nat, k: nat)
    requires end == Shutdown(cfg, es) && m in Arrivals(es) && FreshKeys(cfg.env, end.batches)
    ensures i < |end.batches| && k < |end.batches[i].msgs| && end.batches[i].msgs[k] == m
    ensures end.trace == Effects(cfg.env, end.batches)
    ensures m.payload != [] ==>
            var key := BatchKey(cfg.env, end.batches, i);
            && key in ContentOf(cfg.env, end.batches)
            && ContentOf(cfg.env, end.batches)[key] == end.batches[i].msgs
  {
    hide BatchKey, ContentOf, PayloadSize;
    ReachableInv(cfg, es, end);
    Conservation(cfg, es, m.topic);
    OfTopicMember(Arrivals(es), m, m.topic);
    i, k := FlushedMember(end.batches, m.topic, m);
    if m.payload != [] {
      SomePayload(end.batches[i].msgs, k);
      BatchContent(cfg.env, end.batches, i);
    }
  }

  // ---------- replaying them ----------

  /** The objects behind a list of keys. */
  ghost function ObjectsOf(keys: seq<string>, content: map<string, seq<Message>>): (objects: seq<Stored>)
    requires forall i :: 0 <= i < |keys| ==> keys[i] in content
    ensures |objects| == |keys|
    ensures forall i :: 0 <= i < |keys| ==> objects[i] == Stored(keys[i], content[keys[i]])
  {
    seq(|keys|, i requires 0 <= i < |keys| => Stored(keys[i], content[keys[i]]))
  }

  /** What was downloaded and is large enough to be read is the image of messages. */
  ghost predicate ReadableImages(down: map<string, seq<byte>>, content: map<string, seq<Message>>) {
    forall key :: key in down && |down[key]| >= 512 ==>
      key in content && SizesFit(content[key]) && down[key] == BatchImage(content[key])
  }

  lemma ObjectsRead(down: map<string, seq<byte>>, content: map<string, seq<Message>>, keys: seq<string>,
                    base: PayloadBase)
    requires ReadableImages(down, content)
    ensures forall i :: 0 <= i < |Readable(down, keys)| ==> Readable(down, keys)[i] in content
    ensures ReadObjects(down, keys, base) == Some(ReplayMap(ObjectsOf(Readable(down, keys), content), base))
  {
    hide BatchImage, SizesFit, ReadObjects, ReplayMap;
    var readable := Readable(down, keys);
    assert forall i :: 0 <= i < |readable| ==> readable[i] in readable;
    var objects := ObjectsOf(readable, content);
    assert KeysOf(objects) == readable;
    hide Readable;
    ArchiveRead(down, keys, objects, base);
  }

  /** Each file downloaded is a whole object of the bucket, or too small to be read. */
  ghost predicate Downloaded(down: map<string, seq<byte>>, store: map<string, seq<byte>>) {
    forall key :: key in down && |down[key]| >= 512 ==> key in store && down[key] == store[key]
  }

  lemma {:induction false} UnderMember(prefix: string, ks: seq<string>, key: string)
    requires key in ks && prefix <= key
    ensures key in Paging.Under(prefix, ks)
    decreases ks
  {
    if key != ks[|ks| - 1] {
      UnderMember(prefix, ks[..|ks| - 1], key);
    }
  }

  /** Selected keys are keys of the bucket, and every key of the bucket that passes is selected. */
  lemma SelectedIff(prefix: string, from: Time.Time, bucket: seq<string>, key: string)
    ensures key in Paging.Selected(prefix, from, Paging.Under(prefix, bucket)) <==>
            key in bucket && Paging.Passes(prefix, from, key)
  {
    hide Time.Greater, Time.Parse, Keys.CleanupName, Paging.Selected, Paging.Under;
    var under := Paging.Under(prefix, bucket);
    Paging.SelectedMember(prefix, from, under, key);
    if key in bucket && Paging.Passes(prefix, from, key) {
      UnderMember(prefix, bucket, key);
    }
    if key in under {
      var i :| 0 <= i < |under| && under[i] == key;
    }
  }

  lemma MergedImages(store: map<string, seq<byte>>, content: map<string, seq<Message>>,
                     store': map<string, seq<byte>>, content': map<string, seq<Message>>)
    requires HoldsImages(store, content) && HoldsImages(store', content')
    ensures HoldsImages(store + store', content + content')
  {
    hide BatchImage, SizesFit;
  }

  /** A message of a visited object that no later visited message shares timestamp and offset
      with is produced, with its payload. */
  lemma ReplayedAt(objects: seq<Stored>, x: nat, k: nat)
    requires At(objects, x, k) && SizesFit(objects[x].msgs) && LastOfPair(objects, x, k)
    requires objects[x].msgs[k].payload != [] && objects[x].msgs[k].timestamp != 0
    ensures ProducedFrom(ReplayMap(objects, WalkingPointer), objects[x].msgs[k])
  {
    hide ReplayMap, KeyOf, LastOfPair, Produced, SizesFit, MessageHeader;
    LastRecovered(objects, WalkingPointer, x, k);
    ProducedIff(objects[x].s3key, objects[x].msgs, k);
  }

  /** The map's entry for the message produces the message's payload. */
  ghost predicate ProducedFrom(r: DiscoveryMap, m: Message) {
    && KeyOf(m) in r && |r[KeyOf(m)].header| == HEADER_SIZE
    && Produced(r[KeyOf(m)]).Some? && Produced(r[KeyOf(m)]).value.payload == m.payload
  }

  /** What replay selects from the bucket after the run. */
  ghost function SelectedKeys(prefix: string, from: Time.Time, bucket: seq<string>): seq<string> {
    Paging.Selected(prefix, from, Paging.Under(prefix, bucket))
  }

  /** From end to end. A run ends; the bucket then holds its objects and readable objects of
      earlier runs. Replaying whatever prefix and time select reads without a fault, also if
      some downloads fail. A message the run consumed, with payload and timestamp, is in some
      batch, and if the object of that batch is selected and downloaded and no message visited
      later shares the message's timestamp and offset, the message is produced again with its
      payload. Payloads are read at the walking pointer. */
  lemma ConsumedIsReplayed(cfg: Config, es: seq<Event>, end: State,
                           earlyStore: map<string, seq<byte>>, early: map<string, seq<Message>>, bucket: seq<string>,
                           down: map<string, seq<byte>>, prefix: string, from: Time.Time, m: Message)
    returns (i: nat, k: nat, objects: seq<Stored>, x: nat)
    requires end == Shutdown(cfg, es) && AllSizesFit(end.batches) && FreshKeys(cfg.env, end.batches)
    requires HoldsImages(earlyStore, early)
    requires forall key :: key in bucket <==> key in earlyStore + StoreOf(end.trace)
    requires Downloaded(down, earlyStore + StoreOf(end.trace))
    requires m in Arrivals(es) && m.payload != [] && m.timestamp != 0
    ensures i < |end.batches| && k < |end.batches[i].msgs| && end.batches[i].msgs[k] == m
    ensures KeysOf(objects) == Readable(down, SelectedKeys(prefix, from, bucket))
    ensures ReadObjects(down, SelectedKeys(prefix, from, bucket), WalkingPointer)
         == Some(ReplayMap(objects, WalkingPointer))
    ensures var key := BatchKey(cfg.env, end.batches, i);
            Paging.Passes(prefix, from, key) && key in down && |down[key]| >= 512 ==>
            && x < |objects| && objects[x] == Stored(key, end.batches[i].msgs)
            && (LastOfPair(objects, x, k) ==> ProducedFrom(ReplayMap(objects, WalkingPointer), m))
  {
    hide *;
    i, k := ConsumedIsStored(cfg, es, end, m);
    x := 0;
    objects, x := VisitedObjects(cfg.env, end, earlyStore, early, bucket, down, prefix, from, m, i, k);
  }

  lemma MergedReadable(store: map<string, seq<byte>>, content: map<string, seq<Message>>, down: map<string, seq<byte>>)
    requires HoldsImages(store, content) && Downloaded(down, store)
    ensures ReadableImages(down, content)
  {
    hide BatchImage, SizesFit;
  }

  lemma VisitedObjects(env: Env, end: State, earlyStore: map<string, seq<byte>>, early: map<string, seq<Message>>,
                       bucket: seq<string>, down: map<string, seq<byte>>, prefix: string, from: Time.Time, m: Message,
                       i: nat, k: nat)
    returns (objects: seq<Stored>, x: nat)
    requires FreshKeys(env, end.batches) && AllSizesFit(end.batches) && end.trace == Effects(env, end.batches)
    requires HoldsImages(earlyStore, early)
    requires forall key :: key in bucket <==> key in earlyStore + StoreOf(end.trace)
    requires Downloaded(down, earlyStore + StoreOf(end.trace))
    requires i < |end.batches| && k < |end.batches[i].msgs| && end.batches[i].msgs[k] == m
    requires m.payload != [] && m.timestamp != 0
    requires var key := BatchKey(env, end.batches, i);
             key in ContentOf(env, end.batches) && ContentOf(env, end.batches)[key] == end.batches[i].msgs
    ensures KeysOf(objects) == Readable(down, SelectedKeys(prefix, from, bucket))
    ensures ReadObjects(down, SelectedKeys(prefix, from, bucket), WalkingPointer)
         == Some(ReplayMap(objects, WalkingPointer))
    ensures var key := BatchKey(env, end.batches, i);
            Paging.Passes(prefix, from, key) && key in down && |down[key]| >= 512 ==>
            && x < |objects| && objects[x] == Stored(key, end.batches[i].msgs)
            && (LastOfPair(objects, x, k) ==> ProducedFrom(ReplayMap(objects, WalkingPointer), m))
  {
    hide BatchKey, ContentOf, StoreOf, Effects, ReadObjects, ReplayMap, ProducedFrom, LastOfPair, BatchImage, SizesFit,
      Paging.Passes, Paging.Selected, Paging.Under, Readable, Downloaded;
    var store, content := earlyStore + StoreOf(end.trace), early + ContentOf(env, end.batches);
    var selected, key := SelectedKeys(prefix, from, bucket), BatchKey(env, end.batches, i);
    var keys := Readable(down, selected);
    RunContent(env, end.batches);
    MergedImages(earlyStore, early, StoreOf(end.trace), ContentOf(env, end.batches));
    MergedReadable(store, content, down);
    ObjectsRead(down, content, selected, WalkingPointer);
    objects := ObjectsOf(keys, content);
    x := 0;
    if Paging.Passes(prefix, from, key) && key in down && |down[key]| >= 512 {
      assert key in store;
      SelectedIff(prefix, from, bucket, key);
      assert key in keys;
      x :| 0 <= x < |keys| && keys[x] == key;
      if LastOfPair(objects, x, k) {
        ReplayedAt(objects, x, k);
      }
    }
  }

  /** The two discovery passes of k3replay in a row: list and filter, then read. */
  method Discover(prefix: string, from: Time.MessageTime, s3: Paging.S3, store: map<string, seq<byte>>,
                  base: PayloadBase)
    returns (r: Option<DiscoveryMap>)
    requires Paging.Listing(s3.bucket)
    modifies s3
    ensures s3.failures == old(s3.failures) ==>
            r == ReadObjects(store, SelectedKeys(prefix, from.Value(), s3.bucket), base)
  {
    hide ReadObjects, Paging.Selected, Paging.Under;
    var vlist := Paging.S3Discovery(prefix, from, s3, []);
    assert s3.failures == old(s3.failures) ==> vlist == SelectedKeys(prefix, from.Value(), s3.bucket);
    r := BatchDiscovery(store, vlist, base);
  }

  // ---------- which objects are selected ----------

  /** With the topic and its slash as prefix, an object is selected exactly when what replay
      reads as its time compares greater than the cut-off. For a year of four characters that
      is the time the key was built from. */
  lemma StashedKeySelected(topic: string, c: Keys.Civil, seed: nat, rnd: nat, from: Time.Time)
    ensures Paging.Passes(CStr(topic) + "/", from, Keys.StashKey(topic, c, seed, rnd)) <==>
            Time.Greater(Time.Parse(Keys.TimeText(c, seed)), from)
    ensures Keys.TwoWide(c) ==>
            (Time.Parse(Keys.TimeText(c, seed)) == Keys.KeyTimeOf(c, seed) <==> |IntText(c.year)| == 4)
  {
    hide Time.Parse, Time.Greater, Keys.TimeText, Keys.StashKey, Keys.CleanupName, IntText, Keys.KeyTimeOf;
    Keys.CleanedKey(topic, c, seed, rnd);
    KeyHasPrefix(topic, c, seed, rnd);
    if Keys.TwoWide(c) {
      Keys.ParsedTimeText(c, seed);
    }
  }

  lemma KeyHasPrefix(topic: string, c: Keys.Civil, seed: nat, rnd: nat)
    ensures CStr(topic) + "/" <= Keys.StashKey(topic, c, seed, rnd)
  {
    hide Keys.Stamp, CStr;
  }

  /** The local time of the last message of a batch. */
  ghost function LastTime(env: Env, b: Batch): Keys.Civil
    requires Proper(b)
  {
    env.localTime(WholeSeconds(b.msgs[|b.msgs| - 1].timestamp))
  }

  /** Two batches of a run are put under one key exactly if topic, second of their last
      messages' local times, seed and random number are the same. */
  lemma CollisionIff(env: Env, bs: seq<Batch>, i: nat, j: nat)
    requires AllProper(bs) && i < |bs| && j < |bs| && Proper(bs[i]) && Proper(bs[j])
    ensures BatchKey(env, bs, i) == BatchKey(env, bs, j) <==>
            && CStr(bs[i].topic) == CStr(bs[j].topic)
            && Keys.Stamp(LastTime(env, bs[i])) == Keys.Stamp(LastTime(env, bs[j]))
            && env.seed(CallsBefore(env, bs, i)) == env.seed(CallsBefore(env, bs, j))
            && env.rnd(CallsBefore(env, bs, i)) == env.rnd(CallsBefore(env, bs, j))
  {
    hide BatchImage, Keys.StashKey, Keys.Stamp, CStr;
    var at, at' := CallsBefore(env, bs, i), CallsBefore(env, bs, j);
    Keys.SameKeyIff(bs[i].topic, LastTime(env, bs[i]), env.seed(at), env.rnd(at),
                    bs[j].topic, LastTime(env, bs[j]), env.seed(at'), env.rnd(at'));
  }

  /** For the object of a batch that time is the local time of the last message it holds. */
  lemma ObjectSelected(env: Env, bs: seq<Batch>, i: nat, from: Time.Time)
    requires AllProper(bs) && i < |bs| && Proper(bs[i])
    ensures var c, seed := LastTime(env, bs[i]), env.seed(CallsBefore(env, bs, i));
            && (Paging.Passes(CStr(bs[i].topic) + "/", from, BatchKey(env, bs, i)) <==>
                Time.Greater(Time.Parse(Keys.TimeText(c, seed)), from))
            && (Keys.TwoWide(c) ==>
                (Time.Parse(Keys.TimeText(c, seed)) == Keys.KeyTimeOf(c, seed) <==> |IntText(c.year)| == 4))
  {
    hide Time.Greater, Time.Parse, Keys.TimeText, Paging.Passes, Keys.StashKey, BatchImage, Keys.KeyTimeOf, IntText;
    var at := CallsBefore(env, bs, i);
    StashedKeySelected(bs[i].topic, LastTime(env, bs[i]), env.seed(at), env.rnd(at), from);
  }

  /** In terms of the calendar: among the objects of the month of the cut-off, those whose last
      message is later in that month. */
  lemma SelectedInMonth(topic: string, c: Keys.Civil, seed: nat, rnd: nat, from: Time.Time)
    requires Keys.Usual(c) && TimeOrder.Valid(Keys.KeyTimeOf(c, seed)) && TimeOrder.Valid(from)
    requires from.year == c.year && from.month == c.month
    ensures Paging.Passes(CStr(topic) + "/", from, Keys.StashKey(topic, c, seed, rnd)) <==>
            TimeOrder.DayGreater(Keys.KeyTimeOf(c, seed), from)
  {
    hide Time.Parse, Time.Greater, Keys.TimeText, Keys.StashKey, Paging.Passes, TimeOrder.DayGreater, IntText;
    StashedKeySelected(topic, c, seed, rnd, from);
    Keys.UsualTimeText(c, seed);
    TimeOrder.SameMonthOrder(Keys.KeyTimeOf(c, seed), from);
  }

  /** A cut-off written as the first n characters of an object's own time, from the year on,
      selects the object unless it is exactly the time written. */
  lemma CutOffSelects(topic: string, c: Keys.Civil, seed: nat, rnd: nat, n: nat)
    requires Keys.Usual(c) && TimeOrder.Valid(Keys.KeyTimeOf(c, seed))
    requires 4 <= n <= |Keys.TimeText(c, seed)|
    ensures var text := Keys.TimeText(c, seed);
            Paging.Passes(CStr(topic) + "/", Time.Parse(text[..n]), Keys.StashKey(topic, c, seed, rnd)) <==>
            !Time.Same(Time.Parse(text), Time.Parse(text[..n]))
  {
    hide Time.Parse, Time.Greater, Keys.TimeText, Keys.StashKey, Paging.Passes, Time.Same, IntText;
    var text := Keys.TimeText(c, seed);
    StashedKeySelected(topic, c, seed, rnd, Time.Parse(text[..n]));
    Keys.UsualTimeText(c, seed);
    TimeOrder.CutOffPasses(text, n);
  }

  /** Given the bare topic as prefix, the objects of January to September are selected or not
      whatever their time: all of them for a cut-off from 1975 to September 2042, none of them
      for one from November 2042 to 2110. */
  lemma BareTopicIgnoresTime(topic: string, c: Keys.Civil, seed: nat, rnd: nat, from: Time.Time)
    requires Keys.Usual(c) && c.month <= 9
    requires TimeOrder.Valid(from) && 1975 <= from.year <= 2110 && !(from.year == 2042 && from.month == 10)
    ensures Paging.Passes(CStr(topic), from, Keys.StashKey(topic, c, seed, rnd)) <==>
            from.year < 2042 || (from.year == 2042 && from.month < 10)
  {
    hide Keys.TimeText, Keys.StashKey, Keys.CleanupName, Time.Parse, CStr;
    Keys.BareCleaned(topic, c, seed, rnd);
    Keys.KeyParts(topic, c, seed, rnd);
    Keys.BareTopicFields(c, seed);
    var t := Time.Parse("/" + Keys.TimeText(c, seed));
    ShiftedSeconds(t);
    CutOffSeconds(from);
  }

  lemma ShiftedSeconds(t: Time.Time)
    requires t.year == 0 && t.month == 0 && -9 <= t.day <= 0 && -9 <= t.hour <= 0 && -9 <= t.minute <= 0
    requires -9 <= t.second <= 0 && 0.0 <= t.frac < 10.0
    ensures -724149.0 <= Time.Seconds(t) < 86410.0
  {
    Time.LeapYears(0);
  }

  lemma CutOffSeconds(from: Time.Time)
    requires TimeOrder.Valid(from) && 1975 <= from.year <= 2110 && !(from.year == 2042 && from.month == 10)
    ensures if from.year < 2042 || (from.year == 2042 && from.month < 10)
            then Time.Seconds(from) < -1800000.0 else Time.Seconds(from) > 600000.0
  {
    TimeOrder.YearSplit(from);
    TimeOrder.NoWrap(from.year);
    TimeOrder.DayNumberRange(from);
    TimeOrder.ClockOrder(from, from);
    MonthsBeforeOctober(from);
  }

  lemma MonthsBeforeOctober(t: Time.Time)
    requires TimeOrder.Valid(t)
    ensures t.month < 10 ==> TimeOrder.DayNumber(t) <= 301
    ensures t.month > 10 ==> TimeOrder.DayNumber(t) >= 331
  {
  }
}

/** What replay gets back from a list of stashed batches: which messages, with which
    payloads, in which order. */
module Replay {
  import opened Text
  import opened Bytes
  import opened Header
  import opened Checksum
  import opened Image
  import opened Discovery

  // ---------- payloads ----------

  /** The bytes of the records after the first. */
  function LaterRecords(ms: seq<Message>): seq<byte>
    requires ms != []
  {
    Flat(Records(ms)[1..])
  }

  lemma {:induction false} FlatFirst<T>(rs: seq<seq<T>>)
    requires rs != []
    ensures Flat(rs) == rs[0] + Flat(rs[1..])
    decreases |rs|
  {
    var n := |rs| - 1;
    if n > 0 {
      FlatFirst(rs[..n]);
      assert rs[..n][1..] == rs[1..][..n - 1];
    } else {
      assert rs[..0] == [] && rs[1..] == [];
    }
  }

  /** Behind the first header lie the first payload and then the records of the others. */
  lemma BehindFirstHeader(ms: seq<Message>)
    requires ms != []
    ensures |BatchImage(ms)| >= HEADER_SIZE
    ensures BatchImage(ms)[HEADER_SIZE..] == ms[0].payload + LaterRecords(ms)
  {
    hide HeaderBytes, MessageHeader;
    var rs, h := Records(ms), MessageHeader(ms[0], |ms| - 1);
    FlatFirst(rs);
    hide Flat;
    assert BatchImage(ms) == h + (ms[0].payload + LaterRecords(ms));
  }

  /** The condition on a payload to come back as written: it is a prefix of the first payload,
      or it is the whole of it followed by bytes with which the later records begin. */
  predicate LikeFirst(ms: seq<Message>, p: seq<byte>)
    requires ms != []
  {
    var first := ms[0].payload;
    if |p| <= |first| then p <= first else first <= p && p[|first|..] <= LaterRecords(ms)
  }

  lemma PrefixOfTwo<T>(p: seq<T>, a: seq<T>, b: seq<T>)
    ensures p <= a + b <==> if |p| <= |a| then p <= a else a <= p && p[|a|..] <= b
  {
    if |p| > |a| && a <= p {
      assert p == a + p[|a|..];
    }
    if p <= a + b {
      assert (a + b)[..|p|] == p;
      assert |p| <= |a| ==> a[..|p|] == p;
      assert |p| > |a| ==> p[..|a|] == a && p[|a|..] == b[..|p| - |a|];
    }
  }

  /** A payload taken as written comes back exactly under that condition. The first payload
      always meets it. */
  lemma PayloadsAsWritten(ms: seq<Message>, k: nat)
    requires k < |ms| && ms[k].payload != []
    ensures PayloadRead(ms, BufferStart, k) == Some(ms[k].payload) <==> LikeFirst(ms, ms[k].payload)
    ensures LikeFirst(ms, ms[0].payload)
  {
    hide HeaderBytes, BatchImage, MessageHeader, LaterRecords;
    var image, p := BatchImage(ms), ms[k].payload;
    BehindFirstHeader(ms);
    RecordInBuffer(ms, k);
    SliceOfPrefix(image, Buffer(image), HEADER_SIZE, HEADER_SIZE + |p|);
    var behind := image[HEADER_SIZE..];
    assert behind[..|p|] == image[HEADER_SIZE..HEADER_SIZE + |p|];
    assert PayloadRead(ms, BufferStart, k) == Some(behind[..|p|]);
    assert p <= behind <==> behind[..|p|] == p;
    PrefixOfTwo(p, ms[0].payload, LaterRecords(ms));
  }

  /** The decoder as written recovers all payloads of a batch exactly if each one that is not
      empty meets the condition. */
  lemma BatchAsWrittenIff(ms: seq<Message>)
    requires ms != []
    ensures (forall k :: 0 <= k < |ms| ==> PayloadRead(ms, BufferStart, k) == PayloadRead(ms, WalkingPointer, k)) <==>
            (forall k :: 0 <= k < |ms| && ms[k].payload != [] ==> LikeFirst(ms, ms[k].payload))
  {
    forall k | 0 <= k < |ms|
      ensures PayloadRead(ms, BufferStart, k) == PayloadRead(ms, WalkingPointer, k) <==>
              (ms[k].payload != [] ==> LikeFirst(ms, ms[k].payload))
    {
      AsWrittenIff(ms, k);
    }
    hide PayloadRead, LikeFirst;
  }

  lemma AsWrittenIff(ms: seq<Message>, k: nat)
    requires k < |ms|
    ensures PayloadRead(ms, BufferStart, k) == PayloadRead(ms, WalkingPointer, k) <==>
            (ms[k].payload != [] ==> LikeFirst(ms, ms[k].payload))
  {
    hide BatchImage, Buffer, LikeFirst;
    if ms[k].payload != [] {
      PayloadsAsWritten(ms, k);
    }
  }

  /** So the decoder as written does not recover a batch: of two messages with different
      payloads of the same length, the second comes back wrong. */
  lemma SecondPayloadLost(a: Message, b: Message)
    requires |a.payload| == |b.payload| && a.payload != b.payload
    ensures PayloadRead([a, b], BufferStart, 1) != Some(b.payload)
  {
    PayloadsAsWritten([a, b], 1);
  }

  // ---------- the key of the map ----------

  lemma UniquePoint(a: string, x: string, b: string, y: string)
    requires '.' !in a && '.' !in b && a + "." + x == b + "." + y
    ensures a == b && x == y
  {
    var s := a + "." + x;
    assert s[|a|] == '.' && s[|b|] == '.';
    assert forall t :: 0 <= t < |a| ==> s[t] == a[t] != '.';
    assert forall t :: 0 <= t < |b| ==> s[t] == b[t] != '.';
    assert s[..|a|] == a && s[..|b|] == b && s[|a| + 1..] == x && s[|b| + 1..] == y;
  }

  lemma EventKeyInjective(t: int, o: int, t': int, o': int)
    requires EventKey(t, o) == EventKey(t', o')
    ensures t == t' && o == o'
  {
    UniquePoint(IntText(t), IntText(o), IntText(t'), IntText(o'));
    IntTextInjective(t, t');
    IntTextInjective(o, o');
  }

  /** The pair the map identifies a message by; partition and topic are not part of it. */
  predicate SamePair(a: Message, b: Message) {
    a.timestamp == b.timestamp && a.offset == b.offset
  }

  lemma KeyOfPair(a: Message, b: Message)
    ensures KeyOf(a) == KeyOf(b) <==> SamePair(a, b)
  {
    hide EventKey;
    if KeyOf(a) == KeyOf(b) {
      EventKeyInjective(a.timestamp, a.offset, b.timestamp, b.offset);
    }
  }

  // ---------- one batch into the map ----------

  lemma {:induction false} Untouched(out: DiscoveryMap, s3key: string, ms: seq<Message>, base: PayloadBase, k: nat,
                                     key: string)
    requires k <= |ms|
    requires forall j :: k <= j < |ms| && ms[j].timestamp != 0 ==> KeyOf(ms[j]) != key
    ensures var out' := InsertFrom(out, s3key, ms, base, k);
            (key in out' <==> key in out) && (key in out ==> out'[key] == out[key])
    decreases |ms| - k
  {
    hide KeyOf, ItemOf;
    if k < |ms| {
      var next := if ms[k].timestamp == 0 then out else out[KeyOf(ms[k]) := ItemOf(s3key, ms, base, k)];
      Untouched(next, s3key, ms, base, k + 1, key);
    }
  }

  lemma {:induction false} LastInserted(out: DiscoveryMap, s3key: string, ms: seq<Message>, base: PayloadBase, k: nat,
                                        i: nat)
    requires k <= i < |ms| && ms[i].timestamp != 0
    requires forall j :: i < j < |ms| ==> !SamePair(ms[i], ms[j])
    ensures var out' := InsertFrom(out, s3key, ms, base, k);
            KeyOf(ms[i]) in out' && out'[KeyOf(ms[i])] == ItemOf(s3key, ms, base, i)
    decreases |ms| - k
  {
    hide KeyOf, ItemOf, SamePair;
    var next := if ms[k].timestamp == 0 then out else out[KeyOf(ms[k]) := ItemOf(s3key, ms, base, k)];
    if k < i {
      LastInserted(next, s3key, ms, base, k + 1, i);
    } else {
      forall j | k + 1 <= j < |ms| && ms[j].timestamp != 0
        ensures KeyOf(ms[j]) != KeyOf(ms[i])
      {
        KeyOfPair(ms[i], ms[j]);
      }
      Untouched(next, s3key, ms, base, k + 1, KeyOf(ms[i]));
    }
  }

  lemma {:induction false} InsertedKeys(out: DiscoveryMap, s3key: string, ms: seq<Message>, base: PayloadBase, k: nat,
                                        key: string)
    requires k <= |ms|
    ensures key in InsertFrom(out, s3key, ms, base, k) <==>
            key in out || exists j :: k <= j < |ms| && ms[j].timestamp != 0 && KeyOf(ms[j]) == key
    decreases |ms| - k
  {
    hide KeyOf, ItemOf;
    if k < |ms| {
      var next := if ms[k].timestamp == 0 then out else out[KeyOf(ms[k]) := ItemOf(s3key, ms, base, k)];
      InsertedKeys(next, s3key, ms, base, k + 1, key);
    }
  }

  // ---------- all batches into the map ----------

  datatype Stored = Stored(s3key: string, msgs: seq<Message>)

  function KeysOf(objects: seq<Stored>): (ks: seq<string>)
    ensures |ks| == |objects|
  {
    seq(|objects|, i requires 0 <= i < |objects| => objects[i].s3key)
  }

  function ReplayMap(objects: seq<Stored>, base: PayloadBase): DiscoveryMap {
    if objects == [] then map[]
    else
      var n := |objects| - 1;
      InsertFrom(ReplayMap(objects[..n], base), objects[n].s3key, objects[n].msgs, base, 0)
  }

  lemma {:induction false} ImagesRead(store: map<string, seq<byte>>, objects: seq<Stored>, base: PayloadBase)
    requires forall o :: o in objects ==>
               SizesFit(o.msgs) && o.s3key in store && store[o.s3key] == BatchImage(o.msgs)
    ensures ReadObjects(store, KeysOf(objects), base) == Some(ReplayMap(objects, base))
    decreases objects
  {
    hide InsertFrom, ReadObject, BatchImage, SizesFit;
    if objects != [] {
      var n := |objects| - 1;
      assert KeysOf(objects)[..n] == KeysOf(objects[..n]);
      assert objects[n] in objects;
      ImagesRead(store, objects[..n], base);
      ReadImage(objects[n].msgs, objects[n].s3key, base, ReplayMap(objects[..n], base));
    }
  }

  /** The archive behind a list of keys: the objects that are there and large enough to be read, in
      the order they are visited, each of them the image of its messages. */
  ghost predicate Archive(store: map<string, seq<byte>>, keys: seq<string>, objects: seq<Stored>) {
    && KeysOf(objects) == Readable(store, keys)
    && forall o :: o in objects ==> SizesFit(o.msgs) && (o.s3key in store ==> store[o.s3key] == BatchImage(o.msgs))
  }

  /** Reading any list of keys builds the map of the messages in the objects that are there; keys
      whose object is missing or too small do no harm. */
  lemma ArchiveRead(store: map<string, seq<byte>>, keys: seq<string>, objects: seq<Stored>, base: PayloadBase)
    requires Archive(store, keys, objects)
    ensures ReadObjects(store, keys, base) == Some(ReplayMap(objects, base))
  {
    hide SizesFit, BatchImage, ReadObjects, ReplayMap;
    OnlyReadable(store, keys, base);
    forall o | o in objects
      ensures o.s3key in store
    {
      var i :| 0 <= i < |objects| && objects[i] == o;
      assert KeysOf(objects)[i] == o.s3key;
    }
    ImagesRead(store, objects, base);
  }

  /** Message k of object i. */
  predicate At(objects: seq<Stored>, i: int, k: int) {
    0 <= i < |objects| && 0 <= k < |objects[i].msgs|
  }

  predicate Later(i: int, k: int, i': int, k': int) {
    i' > i || (i' == i && k' > k)
  }

  /** No message visited later has the same pair. */
  ghost predicate LastOfPair(objects: seq<Stored>, i: int, k: int)
    requires At(objects, i, k)
  {
    forall i', k' :: At(objects, i', k') && Later(i, k, i', k') ==>
      !SamePair(objects[i].msgs[k], objects[i'].msgs[k'])
  }

  ghost predicate Recovered(objects: seq<Stored>, base: PayloadBase, i: int, k: int)
    requires At(objects, i, k)
  {
    var m, r := objects[i].msgs[k], ReplayMap(objects, base);
    KeyOf(m) in r && r[KeyOf(m)] == ItemOf(objects[i].s3key, objects[i].msgs, base, k)
  }

  /** The map holds, for each pair, the message visited last. */
  lemma {:induction false} LastRecovered(objects: seq<Stored>, base: PayloadBase, i: int, k: int)
    requires At(objects, i, k) && objects[i].msgs[k].timestamp != 0 && LastOfPair(objects, i, k)
    ensures Recovered(objects, base, i, k)
    decreases objects
  {
    hide KeyOf, ItemOf, SamePair, InsertFrom;
    var n := |objects| - 1;
    var front, ms, m := objects[..n], objects[n].msgs, objects[i].msgs[k];
    if i == n {
      forall j | k < j < |ms|
        ensures !SamePair(ms[k], ms[j])
      {
        assert At(objects, n, j) && Later(i, k, n, j);
      }
      LastInserted(ReplayMap(front, base), objects[n].s3key, ms, base, 0, k);
    } else {
      forall i', k' | At(front, i', k') && Later(i, k, i', k')
        ensures !SamePair(front[i].msgs[k], front[i'].msgs[k'])
      {
        assert At(objects, i', k');
      }
      LastRecovered(front, base, i, k);
      forall j | 0 <= j < |ms| && ms[j].timestamp != 0
        ensures KeyOf(ms[j]) != KeyOf(m)
      {
        assert At(objects, n, j) && Later(i, k, n, j);
        KeyOfPair(m, ms[j]);
      }
      Untouched(ReplayMap(front, base), objects[n].s3key, ms, base, 0, KeyOf(m));
    }
  }

  /** The keys of the map are exactly the pairs of the messages with a timestamp. */
  lemma {:induction false} ReplayKeys(objects: seq<Stored>, base: PayloadBase, key: string)
    ensures key in ReplayMap(objects, base) <==>
            exists i, k :: At(objects, i, k) && objects[i].msgs[k].timestamp != 0 && KeyOf(objects[i].msgs[k]) == key
    decreases objects
  {
    hide KeyOf, InsertFrom;
    if objects != [] {
      var n := |objects| - 1;
      var front, ms := objects[..n], objects[n].msgs;
      ReplayKeys(front, base, key);
      InsertedKeys(ReplayMap(front, base), objects[n].s3key, ms, base, 0, key);
      if i, k :| At(front, i, k) && front[i].msgs[k].timestamp != 0 && KeyOf(front[i].msgs[k]) == key {
        assert At(objects, i, k);
      }
      if j :| 0 <= j < |ms| && ms[j].timestamp != 0 && KeyOf(ms[j]) == key {
        assert At(objects, n, j);
      }
      if i, k :| At(objects, i, k) && objects[i].msgs[k].timestamp != 0 && KeyOf(objects[i].msgs[k]) == key {
        assert i < n ==> At(front, i, k) && front[i] == objects[i];
      }
    }
  }

  /** From any message one gets to the last one of its pair. */
  lemma LastExists(objects: seq<Stored>, i: int, k: int) returns (i': int, k': int)
    requires At(objects, i, k)
    ensures At(objects, i', k') && SamePair(objects[i].msgs[k], objects[i'].msgs[k']) && LastOfPair(objects, i', k')
    decreases |objects| - i, |objects[i].msgs| - k
  {
    if LastOfPair(objects, i, k) {
      i', k' := i, k;
    } else {
      var i1, k1 :| At(objects, i1, k1) && Later(i, k, i1, k1) && SamePair(objects[i].msgs[k], objects[i1].msgs[k1]);
      i', k' := LastExists(objects, i1, k1);
    }
  }

  /** The message of object i at k is what the map holds under the key. */
  ghost predicate Owns(objects: seq<Stored>, base: PayloadBase, i: int, k: int, key: string) {
    && At(objects, i, k) && objects[i].msgs[k].timestamp != 0 && KeyOf(objects[i].msgs[k]) == key
    && LastOfPair(objects, i, k) && Recovered(objects, base, i, k)
  }

  /** The map exactly: its keys are those of the messages with a timestamp, and each of its
      entries is the item of the last visited message of the pair. */
  lemma MapExactly(objects: seq<Stored>, base: PayloadBase, key: string)
    ensures key in ReplayMap(objects, base) <==> exists i, k :: Owns(objects, base, i, k, key)
  {
    hide KeyOf, ReplayMap, SamePair, LastOfPair, ItemOf;
    ReplayKeys(objects, base, key);
    if key in ReplayMap(objects, base) {
      var i, k :| At(objects, i, k) && objects[i].msgs[k].timestamp != 0 && KeyOf(objects[i].msgs[k]) == key;
      var i', k' := LastExists(objects, i, k);
      PairFacts(objects[i].msgs[k], objects[i'].msgs[k']);
      LastRecovered(objects, base, i', k');
      assert Owns(objects, base, i', k', key);
    }
  }

  lemma PairFacts(a: Message, b: Message)
    requires SamePair(a, b)
    ensures a.timestamp == b.timestamp && KeyOf(a) == KeyOf(b)
  {
  }

  /** The same item can only come from the same place. */
  lemma ItemPlace(objects: seq<Stored>, base: PayloadBase, i: int, k: int, i': int, k': int)
    requires forall a, b :: 0 <= a < b < |objects| ==> objects[a].s3key != objects[b].s3key
    requires At(objects, i, k) && At(objects, i', k') && SizesFit(objects[i].msgs)
    requires ItemOf(objects[i].s3key, objects[i].msgs, base, k) == ItemOf(objects[i'].s3key, objects[i'].msgs, base, k')
    ensures i == i' && k == k'
  {
    hide MessageHeader, PayloadRead, ReadDetails;
    assert i == i';
    DetailsOf(objects[i].msgs, k);
    DetailsOf(objects[i].msgs, k');
  }

  /** No two messages share a pair, and every message has a timestamp. */
  ghost predicate AllDistinct(objects: seq<Stored>) {
    && (forall i, k :: At(objects, i, k) ==> objects[i].msgs[k].timestamp != 0)
    && (forall i, k, i', k' :: At(objects, i, k) && At(objects, i', k') && Later(i, k, i', k') ==>
          !SamePair(objects[i].msgs[k], objects[i'].msgs[k']))
  }

  /** Every archived message has its own entry in the map exactly when all timestamps are
      non-zero and no two messages, of whatever partitions, share timestamp and offset. */
  lemma AllRecoveredIff(objects: seq<Stored>, base: PayloadBase)
    requires forall a, b :: 0 <= a < b < |objects| ==> objects[a].s3key != objects[b].s3key
    requires forall a :: 0 <= a < |objects| ==> SizesFit(objects[a].msgs)
    ensures (forall i, k :: At(objects, i, k) ==> Recovered(objects, base, i, k)) <==> AllDistinct(objects)
  {
    hide KeyOf, ItemOf, SamePair, ReplayMap, SizesFit;
    if AllDistinct(objects) {
      forall i, k | At(objects, i, k)
        ensures Recovered(objects, base, i, k)
      {
        LastRecovered(objects, base, i, k);
      }
    }
    if forall i, k :: At(objects, i, k) ==> Recovered(objects, base, i, k) {
      forall i, k | At(objects, i, k)
        ensures objects[i].msgs[k].timestamp != 0
      {
        assert Recovered(objects, base, i, k);
        KeyHasTimestamp(objects, base, i, k);
      }
      forall i, k, i', k' | At(objects, i, k) && At(objects, i', k') && Later(i, k, i', k')
        ensures !SamePair(objects[i].msgs[k], objects[i'].msgs[k'])
      {
        KeyOfPair(objects[i].msgs[k], objects[i'].msgs[k']);
        if SamePair(objects[i].msgs[k], objects[i'].msgs[k']) {
          assert Recovered(objects, base, i, k) && Recovered(objects, base, i', k');
          ItemPlace(objects, base, i, k, i', k');
        }
      }
    }
  }

  lemma KeyHasTimestamp(objects: seq<Stored>, base: PayloadBase, i: int, k: int)
    requires At(objects, i, k) && KeyOf(objects[i].msgs[k]) in ReplayMap(objects, base)
    ensures objects[i].msgs[k].timestamp != 0
  {
    hide KeyOf, ReplayMap;
    var m := objects[i].msgs[k];
    ReplayKeys(objects, base, KeyOf(m));
    var i', k' :| At(objects, i', k') && objects[i'].msgs[k'].timestamp != 0 && KeyOf(objects[i'].msgs[k']) == KeyOf(m);
    KeyOfPair(m, objects[i'].msgs[k']);
  }

  // ---------- producing ----------

  /** What process_event hands to the producer. */
  datatype Produce = Produce(payload: seq<byte>, key: seq<byte>)

  function Produced(item: Item): Option<Produce>
    requires |item.header| == HEADER_SIZE
  {
    if ReadDetails(item.header).payloadLen > 0 && item.payload.Some?
    then Some(Produce(item.payload.value, CBytes(KeyField(item.header))))
    else None
  }

  /** With payloads read at the walking pointer, a recovered message is produced with its own
      payload, and with the first 127 bytes of its key up to the first NUL; so with its own key
      exactly if that holds no NUL and at most 127 bytes. A message without payload is not
      produced. */
  lemma ProducedIff(s3key: string, ms: seq<Message>, k: nat)
    requires SizesFit(ms) && k < |ms|
    ensures var m, e := ms[k], Produced(ItemOf(s3key, ms, WalkingPointer, k));
            && (e.Some? <==> m.payload != [])
            && (e.Some? ==> e.value.payload == m.payload)
            && (e.Some? ==> e.value.key == CBytes(m.key[..if |m.key| <= 127 then |m.key| else 127]))
            && (e.Some? ==> (e.value.key == m.key <==> 0 !in m.key && |m.key| <= 127))
  {
    hide ReadDetails, HeaderBytes, Field, KeyField, CBytes;
    DetailsOf(ms, k);
    HeaderTextExactIff(ms[k], |ms| - 1 - k, PayloadChecksum(ms[k].payload));
  }
}

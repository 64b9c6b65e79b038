/** Reading stashed batches back into the map that replay iterates over. */
module Discovery {
  import opened Text
  import opened Bytes
  import opened Header
  import opened Checksum
  import opened Image

  /** DiscoveryItem */
  datatype Item = Item(timestamp: int64, s3key: string, header: seq<byte>, payload: Option<seq<byte>>)

  type DiscoveryMap = map<string, Item>

  /** Where a payload is read. The program as written takes it behind the first header of the
      buffer, for every message (BufferStart). The evident intent is to take it behind the
      header the walk is at (WalkingPointer). Everything else is the same for both. */
  datatype PayloadBase = BufferStart | WalkingPointer

  /** How reading an object ended. Malformed stands for what C++ leaves undefined or ends by an
      exception: a header or payload outside the buffer, or a negative count or length. */
  datatype Outcome =
    | Walked(output: DiscoveryMap, end: int)
    | TooSmall
    | NotFound
    | Malformed

  function EventKey(timestamp: int, offset: int): string {
    IntText(timestamp) + "." + IntText(offset)
  }

  /** The buffer is twice the file; its second half stays zero. */
  function Buffer(file: seq<byte>): (b: seq<byte>)
    ensures |b| == 2 * |file| && file <= b
  {
    file + Zeros(|file|)
  }

  /** The walk: n more messages, the next header at p. */
  function Walk(buf: seq<byte>, p: int, n: int, s3key: string, base: PayloadBase, output: DiscoveryMap): Outcome
    decreases if n > 0 then n else 0
  {
    if n == 0 then Walked(output, p)
    else if n < 0 || p < 0 || p + HEADER_SIZE > |buf| then Malformed
    else
      var h := buf[p..p + HEADER_SIZE];
      var d := ReadDetails(h);
      var at := (if base.BufferStart? then 0 else p) + HEADER_SIZE;
      var len := Wrap32(d.payloadLen);
      if d.timestamp != 0 && d.payloadLen != 0 && (len < 0 || at + len > |buf|) then Malformed
      else
        var output' :=
          if d.timestamp == 0 then output
          else output[EventKey(d.timestamp, d.offset) := Item(d.timestamp, s3key, h,
                        if d.payloadLen == 0 then None else Some(buf[at..at + len]))];
        Walk(buf, p + HEADER_SIZE + d.payloadLen, n - 1, s3key, base, output')
  }

  function ReadObject(file: seq<byte>, s3key: string, base: PayloadBase, output: DiscoveryMap): Outcome {
    var buf := Buffer(file);
    if |buf| < HEADER_SIZE then TooSmall
    else Walk(buf, 0, Wrap32(ReadDetails(buf[..HEADER_SIZE]).index + 1), s3key, base, output)
  }

  /** The loop over the buffer: p moves from header to header while the count runs down. */
  method WalkBuffer(buffer: seq<byte>, count: int, inkey: string, base: PayloadBase, output: DiscoveryMap)
    returns (r: Outcome)
    ensures r == Walk(buffer, 0, count, inkey, base, output)
  {
    hide ReadDetails, EventKey;
    var p := 0;
    var out := output;
    var nummsgs := count;
    while nummsgs != 0
      invariant Walk(buffer, p, nummsgs, inkey, base, out) == Walk(buffer, 0, count, inkey, base, output)
      decreases if nummsgs > 0 then nummsgs else 0
    {
      if nummsgs < 0 || p < 0 || p + HEADER_SIZE > |buffer| {
        return Malformed;
      }
      var header := buffer[p..p + HEADER_SIZE];
      var d := ReadDetails(header);
      if d.timestamp != 0 {
        var payload := None;
        if d.payloadLen != 0 {
          var at := (if base.BufferStart? then 0 else p) + HEADER_SIZE;
          var len := Wrap32(d.payloadLen);
          if len < 0 || at + len > |buffer| {
            return Malformed;
          }
          payload := Some(buffer[at..at + len]);
        }
        out := out[EventKey(d.timestamp, d.offset) := Item(d.timestamp, inkey, header, payload)];
      }
      p := p + (HEADER_SIZE + d.payloadLen);
      nummsgs := nummsgs - 1;
    }
    return Walked(out, p);
  }

  /** batch_discovery_bykey on the object the store holds under the key. */
  method BatchDiscoveryByKey(store: map<string, seq<byte>>, inkey: string, base: PayloadBase, output: DiscoveryMap)
    returns (r: Outcome)
    ensures r == if inkey !in store then NotFound else ReadObject(store[inkey], inkey, base, output)
  {
    hide Walk, ReadDetails;
    if inkey !in store {
      return NotFound;
    }
    var buffer := Buffer(store[inkey]);
    if |buffer| < HEADER_SIZE {
      return TooSmall;
    }
    r := WalkBuffer(buffer, Wrap32(ReadDetails(buffer[..HEADER_SIZE]).index + 1), inkey, base, output);
  }

  /** The map after a list of objects; None if one of them was malformed. Objects that are
      missing or too small are passed over. */
  function ReadObjects(store: map<string, seq<byte>>, keys: seq<string>, base: PayloadBase): Option<DiscoveryMap> {
    if keys == [] then Some(map[])
    else
      var n := |keys| - 1;
      var front := ReadObjects(store, keys[..n], base);
      if front.None? || keys[n] !in store then front
      else
        match ReadObject(store[keys[n]], keys[n], base, front.value)
        case Walked(output, _) => Some(output)
        case Malformed => None
        case _ => front
  }

  method BatchDiscovery(store: map<string, seq<byte>>, inkeys: seq<string>, base: PayloadBase)
    returns (r: Option<DiscoveryMap>)
    ensures r == ReadObjects(store, inkeys, base)
  {
    hide ReadObject;
    var output: DiscoveryMap := map[];
    for itor := 0 to |inkeys|
      invariant ReadObjects(store, inkeys[..itor], base) == Some(output)
    {
      assert inkeys[..itor + 1][..itor] == inkeys[..itor];
      var one := BatchDiscoveryByKey(store, inkeys[itor], base, output);
      match one {
        case Walked(out, _) => output := out;
        case Malformed =>
          MalformedStays(store, inkeys, base, itor + 1);
          return None;
        case _ =>
      }
    }
    assert inkeys[..|inkeys|] == inkeys;
    return Some(output);
  }

  lemma {:induction false} MalformedStays(store: map<string, seq<byte>>, keys: seq<string>, base: PayloadBase, n: nat)
    requires n <= |keys| && ReadObjects(store, keys[..n], base).None?
    ensures ReadObjects(store, keys, base).None?
    decreases |keys| - n
  {
    if n == |keys| {
      assert keys[..n] == keys;
    } else {
      assert keys[..n + 1][..n] == keys[..n];
      MalformedStays(store, keys, base, n + 1);
    }
  }

  /** Reading any object at all, whoever wrote it. The buffer is the file and as many zeros; the
      number of messages is one more than bytes 40 to 47, as an int holds it. */
  lemma ObjectStart(file: seq<byte>, s3key: string, base: PayloadBase, output: DiscoveryMap, count: int)
    requires |file| >= 512 && -0x8000_0000 <= count < 0x8000_0000
    requires (BytesInt64((file + Zeros(|file|))[40..48]) + 1 - count) % 0x1_0000_0000 == 0
    ensures ReadObject(file, s3key, base, output) == Walk(file + Zeros(|file|), 0, count, s3key, base, output)
  {
    hide Walk;
    var buf := Buffer(file);
    HeaderFields(buf, 0, buf[..HEADER_SIZE]);
    NarrowedTo(ReadDetails(buf[..HEADER_SIZE]).index + 1, count);
  }

  lemma NarrowedTo(v: int, n: int)
    requires -0x8000_0000 <= n < 0x8000_0000 && (v - n) % 0x1_0000_0000 == 0
    ensures Wrap32(v) == n
  {
  }

  lemma HeaderFields(buf: seq<byte>, p: nat, h: seq<byte>)
    requires p + 1024 <= |buf| && h == buf[p..p + 1024]
    ensures var d := ReadDetails(h);
            && d.payloadLen == BytesInt64(buf[p + 8..p + 16]) && d.offset == BytesInt64(buf[p + 24..p + 32])
            && d.timestamp == BytesInt64(buf[p + 32..p + 40]) && d.index == BytesInt64(buf[p + 40..p + 48])
  {
    hide BytesInt64;
    SubSlice(buf, p, 1024, 8, 16);
    SubSlice(buf, p, 1024, 24, 32);
    SubSlice(buf, p, 1024, 32, 40);
    SubSlice(buf, p, 1024, 40, 48);
  }

  lemma SubSlice<T>(buf: seq<T>, p: nat, n: nat, i: nat, j: nat)
    requires i <= j <= n && p + n <= |buf|
    ensures buf[p..p + n][i..j] == buf[p + i..p + j]
  {
    var inner, outer := buf[p..p + n][i..j], buf[p + i..p + j];
    forall k | 0 <= k < j - i
      ensures inner[k] == outer[k]
    {
      assert inner[k] == buf[p..p + n][i + k] == buf[p + i + k] == outer[k];
    }
    assert |inner| == |outer| == j - i;
  }

  /** One turn of the walk on any bytes: timestamp, offset and length stand at fixed places of the
      header; the payload has the length an int holds; the walk goes on by the whole length. */
  lemma WalkOne(buf: seq<byte>, p: nat, s3key: string, base: PayloadBase, output: DiscoveryMap,
                timestamp: int64, offset: int64, length: int64, at: nat, n: int)
    requires p + 1024 <= |buf| && at == (if base.BufferStart? then 1024 else p + 1024)
    requires timestamp == BytesInt64(buf[p + 32..p + 40]) && offset == BytesInt64(buf[p + 24..p + 32])
    requires length == BytesInt64(buf[p + 8..p + 16])
    requires -0x8000_0000 <= n < 0x8000_0000 && (length - n) % 0x1_0000_0000 == 0
    ensures Walk(buf, p, 1, s3key, base, output) ==
            if timestamp == 0 then Walked(output, p + 1024 + length)
            else if length == 0 then
              Walked(output[IntText(timestamp) + "." + IntText(offset) :=
                Item(timestamp, s3key, buf[p..p + 1024], None)], p + 1024)
            else if n < 0 || at + n > |buf| then Malformed
            else
              Walked(output[IntText(timestamp) + "." + IntText(offset) :=
                Item(timestamp, s3key, buf[p..p + 1024], Some(buf[at..at + n]))], p + 1024 + length)
  {
    hide ReadDetails, BytesInt64, Wrap32, IntText;
    HeaderFields(buf, p, buf[p..p + 1024]);
    NarrowedTo(length, n);
  }

  /** A walk of several messages is a walk of one and then of the others. */
  lemma WalkOn(buf: seq<byte>, p: int, n: int, s3key: string, base: PayloadBase, output: DiscoveryMap)
    requires n > 0
    ensures Walk(buf, p, n, s3key, base, output) ==
            match Walk(buf, p, 1, s3key, base, output)
            case Walked(out, end) => Walk(buf, end, n - 1, s3key, base, out)
            case other => other
  {
    hide ReadDetails, EventKey, Wrap32;
  }

  /** The keys with an object of at least half a header: the buffer, twice the file, then holds
      one. */
  function Readable(store: map<string, seq<byte>>, keys: seq<string>): (r: seq<string>)
    ensures forall key :: key in r <==> key in keys && key in store && |store[key]| >= 512
  {
    if keys == [] then []
    else
      var last := keys[|keys| - 1];
      Readable(store, keys[..|keys| - 1]) + if last in store && |store[last]| >= 512 then [last] else []
  }

  /** A key whose object is missing, or smaller than 512 bytes, makes no difference wherever it
      stands in the list. */
  lemma {:induction false} PassedOver(store: map<string, seq<byte>>, front: seq<string>, key: string,
                                      rest: seq<string>, base: PayloadBase)
    requires key !in store || |store[key]| < 512
    ensures ReadObjects(store, front + [key] + rest, base) == ReadObjects(store, front + rest, base)
    decreases rest
  {
    hide Walk;
    var keys, without := front + [key] + rest, front + rest;
    if rest == [] {
      assert keys == front + [key] && keys[..|keys| - 1] == front == without;
    } else {
      var n := |rest| - 1;
      PassedOver(store, front, key, rest[..n], base);
      assert keys[..|keys| - 1] == front + [key] + rest[..n];
      assert without[..|without| - 1] == front + rest[..n];
      hide ReadObject;
    }
  }

  lemma SameSoFar(store: map<string, seq<byte>>, a: seq<string>, b: seq<string>, key: string, base: PayloadBase)
    requires ReadObjects(store, a, base) == ReadObjects(store, b, base)
    ensures ReadObjects(store, a + [key], base) == ReadObjects(store, b + [key], base)
  {
    hide ReadObject;
    assert (a + [key])[..|a|] == a && (b + [key])[..|b|] == b;
  }

  /** Reading a list of objects is reading those that are there and large enough. */
  lemma {:induction false} OnlyReadable(store: map<string, seq<byte>>, keys: seq<string>, base: PayloadBase)
    ensures ReadObjects(store, keys, base) == ReadObjects(store, Readable(store, keys), base)
    decreases keys
  {
    hide ReadObject, ReadObjects;
    if keys != [] {
      var n := |keys| - 1;
      OnlyReadable(store, keys[..n], base);
      assert keys == keys[..n] + [keys[n]];
      if keys[n] in store && |store[keys[n]]| >= 512 {
        SameSoFar(store, keys[..n], Readable(store, keys[..n]), keys[n], base);
      } else {
        PassedOver(store, keys[..n], keys[n], [], base);
        assert keys[..n] + [keys[n]] + [] == keys && keys[..n] + [] == keys[..n];
        assert Readable(store, keys) == Readable(store, keys[..n]);
      }
    }
  }

  lemma {:induction false} FaultOfBuffer(buf: seq<byte>, p: int, n: int, s3key: string, base: PayloadBase,
                                         out: DiscoveryMap, out': DiscoveryMap)
    ensures Walk(buf, p, n, s3key, base, out).Malformed? <==> Walk(buf, p, n, s3key, base, out').Malformed?
    decreases if n > 0 then n else 0
  {
    hide ReadDetails, EventKey;
    if n > 0 && 0 <= p <= |buf| - HEADER_SIZE {
      var h := buf[p..p + HEADER_SIZE];
      var d := ReadDetails(h);
      var at := (if base.BufferStart? then 0 else p) + HEADER_SIZE;
      var len := Wrap32(d.payloadLen);
      if !(d.timestamp != 0 && d.payloadLen != 0 && (len < 0 || at + len > |buf|)) {
        var item := Item(d.timestamp, s3key, h, if d.payloadLen == 0 || d.timestamp == 0 then None
                                                else Some(buf[at..at + len]));
        var key := EventKey(d.timestamp, d.offset);
        FaultOfBuffer(buf, p + HEADER_SIZE + d.payloadLen, n - 1, s3key, base,
                      if d.timestamp == 0 then out else out[key := item],
                      if d.timestamp == 0 then out' else out'[key := item]);
      }
    }
  }

  /** A replay fails exactly if one of the objects that are there is malformed by itself. */
  lemma {:induction false} FaultIff(store: map<string, seq<byte>>, keys: seq<string>, base: PayloadBase)
    ensures ReadObjects(store, keys, base).None? <==>
            exists key :: key in keys && key in store && ReadObject(store[key], key, base, map[]).Malformed?
    decreases keys
  {
    hide Walk;
    if keys != [] {
      var n := |keys| - 1;
      FaultIff(store, keys[..n], base);
      assert keys == keys[..n] + [keys[n]];
      var front := ReadObjects(store, keys[..n], base);
      if front.Some? && keys[n] in store {
        FaultOfObject(store[keys[n]], keys[n], base, front.value, map[]);
      }
      hide ReadObject;
    }
  }

  lemma FaultOfObject(file: seq<byte>, s3key: string, base: PayloadBase, out: DiscoveryMap, out': DiscoveryMap)
    ensures ReadObject(file, s3key, base, out).Malformed? <==> ReadObject(file, s3key, base, out').Malformed?
  {
    hide Walk, ReadDetails;
    var buf := Buffer(file);
    if |buf| >= HEADER_SIZE {
      FaultOfBuffer(buf, 0, Wrap32(ReadDetails(buf[..HEADER_SIZE]).index + 1), s3key, base, out, out');
    }
  }

  // ---------- reading back what was written ----------

  /** The sizes fit the C++ types that carry them. */
  predicate SizesFit(ms: seq<Message>) {
    0 < |ms| <= INT32_MAX && forall i :: 0 <= i < |ms| ==> |ms[i].payload| <= INT32_MAX
  }

  /** What the decoder reads as the payload of message k. */
  function PayloadRead(ms: seq<Message>, base: PayloadBase, k: nat): Option<seq<byte>>
    requires k < |ms|
  {
    var image := Buffer(BatchImage(ms));
    var len := |ms[k].payload|;
    if len == 0 then None
    else if base.WalkingPointer? then Some(ms[k].payload)
    else
      ImageRecords(ms, k);
      Some(image[HEADER_SIZE..HEADER_SIZE + len])
  }

  /** The item of message k: its header as it was written, and the payload as it is read. */
  function ItemOf(s3key: string, ms: seq<Message>, base: PayloadBase, k: nat): Item
    requires k < |ms|
  {
    Item(ms[k].timestamp, s3key, MessageHeader(ms[k], |ms| - 1 - k), PayloadRead(ms, base, k))
  }

  function KeyOf(m: Message): string {
    EventKey(m.timestamp, m.offset)
  }

  /** The map after inserting the messages from k on, in order; a zero timestamp is skipped. */
  function InsertFrom(output: DiscoveryMap, s3key: string, ms: seq<Message>, base: PayloadBase, k: nat): DiscoveryMap
    requires k <= |ms|
    decreases |ms| - k
  {
    if k == |ms| then output
    else if ms[k].timestamp == 0 then InsertFrom(output, s3key, ms, base, k + 1)
    else InsertFrom(output[KeyOf(ms[k]) := ItemOf(s3key, ms, base, k)], s3key, ms, base, k + 1)
  }

  lemma SliceOfPrefix<T>(file: seq<T>, buf: seq<T>, i: nat, j: nat)
    requires file <= buf && i <= j <= |file|
    ensures buf[i..j] == file[i..j]
  {
  }

  /** Record k as it lies in the buffer. */
  lemma RecordInBuffer(ms: seq<Message>, k: nat)
    requires k < |ms|
    ensures var buf, p := Buffer(BatchImage(ms)), Start(ms, k);
            var body := p + HEADER_SIZE;
            && body + |ms[k].payload| == Start(ms, k + 1) <= |BatchImage(ms)| <= |buf|
            && buf[p..body] == MessageHeader(ms[k], |ms| - 1 - k)
            && buf[body..body + |ms[k].payload|] == ms[k].payload
  {
    hide HeaderBytes, BatchImage;
    var image, p := BatchImage(ms), Start(ms, k);
    var body, next := p + HEADER_SIZE, Start(ms, k + 1);
    var h := MessageHeader(ms[k], |ms| - 1 - k);
    ImageRecords(ms, k);
    StartNext(ms, k);
    var record := image[p..next];
    assert image[p..body] == record[..HEADER_SIZE] == h;
    assert image[body..next] == record[HEADER_SIZE..] == ms[k].payload;
    SliceOfPrefix(image, Buffer(image), p, body);
    SliceOfPrefix(image, Buffer(image), body, next);
  }

  lemma DetailsOf(ms: seq<Message>, k: nat)
    requires SizesFit(ms) && k < |ms|
    ensures var m, d := ms[k], ReadDetails(MessageHeader(ms[k], |ms| - 1 - k));
            d == Details(1, |m.payload|, m.partition, m.offset, m.timestamp, |ms| - 1 - k, PayloadChecksum(m.payload))
  {
    hide HeaderBytes;
    HeaderRoundTrip(ms[k], |ms| - 1 - k, PayloadChecksum(ms[k].payload));
  }

  /** The header walk, as written: from record k on it visits exactly the remaining records,
      recovers each header, and stops at the total size of the image. */
  lemma {:induction false} WalkImage(ms: seq<Message>, k: nat, s3key: string, base: PayloadBase, output: DiscoveryMap)
    requires SizesFit(ms) && k <= |ms|
    ensures Walk(Buffer(BatchImage(ms)), Start(ms, k), |ms| - k, s3key, base, output)
         == Walked(InsertFrom(output, s3key, ms, base, k), |BatchImage(ms)|)
    decreases |ms| - k
  {
    hide HeaderBytes, BatchImage, Buffer, MessageHeader, ReadDetails, EventKey, Start;
    if k == |ms| {
      ImageSize(ms);
    } else {
      var buf, m := Buffer(BatchImage(ms)), ms[k];
      RecordInBuffer(ms, k);
      DetailsOf(ms, k);
      assert Wrap32(|m.payload|) == |m.payload|;
      var output' := if m.timestamp == 0 then output else output[KeyOf(m) := ItemOf(s3key, ms, base, k)];
      WalkImage(ms, k + 1, s3key, base, output');
    }
  }

  /** Reading an object back that was written as the image of a batch. */
  lemma ReadImage(ms: seq<Message>, s3key: string, base: PayloadBase, output: DiscoveryMap)
    requires SizesFit(ms)
    ensures ReadObject(BatchImage(ms), s3key, base, output)
         == Walked(InsertFrom(output, s3key, ms, base, 0), |BatchImage(ms)|)
  {
    hide Walk, ReadDetails, Buffer, BatchImage, InsertFrom, Start, Wrap32;
    StartsAtZero(ms);
    ReadCount(ms);
    WalkImage(ms, 0, s3key, base, output);
  }

  lemma StartsAtZero(ms: seq<Message>)
    ensures Start(ms, 0) == 0
  {
    assert ms[..0] == [];
  }

  /** The first header's index gives the number of messages. */
  lemma ReadCount(ms: seq<Message>)
    requires SizesFit(ms)
    ensures var buf := Buffer(BatchImage(ms));
            && |buf| >= HEADER_SIZE
            && Wrap32(ReadDetails(buf[..HEADER_SIZE]).index + 1) == |ms|
  {
    hide HeaderBytes, BatchImage, MessageHeader, ReadDetails, Start, Buffer;
    StartsAtZero(ms);
    RecordInBuffer(ms, 0);
    DetailsOf(ms, 0);
  }

  /** The round trip of a batch, record by record. The first header's index gives the number
      of messages; where the walk arrives for message k lies its header, with every field as
      stored, and its payload behind it; the length in the header leads to the next record,
      and from the last one to the total size. */
  lemma BatchRoundTrip(ms: seq<Message>, k: nat, buf: seq<byte>, p: nat)
    requires SizesFit(ms) && k < |ms| && buf == Buffer(BatchImage(ms)) && p == Start(ms, k)
    ensures p + HEADER_SIZE + |ms[k].payload| <= |buf|
    ensures ReadDetails(buf[..HEADER_SIZE]).index + 1 == |ms|
    ensures var m, h := ms[k], buf[p..p + HEADER_SIZE];
            && ReadDetails(h) == Details(1, |m.payload|, m.partition, m.offset, m.timestamp, |ms| - 1 - k,
                                         PayloadChecksum(m.payload))
            && KeyField(h) == Field(m.key, KEY_MAX)
            && TopicField(h) == Field(TextBytes(m.topic), TOPIC_MAX)
    ensures buf[p + HEADER_SIZE..p + HEADER_SIZE + |ms[k].payload|] == ms[k].payload
    ensures Start(ms, 0) == 0 && Start(ms, k + 1) == p + HEADER_SIZE + |ms[k].payload|
    ensures Start(ms, |ms|) == |BatchImage(ms)|
  {
    hide HeaderBytes, BatchImage, ReadDetails, Buffer, KeyField, TopicField, Field, Start;
    StartsAtZero(ms);
    RecordInBuffer(ms, 0);
    DetailsOf(ms, 0);
    RecordInBuffer(ms, k);
    DetailsOf(ms, k);
    HeaderTexts(ms[k], |ms| - 1 - k, PayloadChecksum(ms[k].payload));
    ImageSize(ms);
  }
}

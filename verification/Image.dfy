/** The in-memory image of a batch: for each message a header and its payload, the header's
    index counting down to 0. */
module Image {
  import opened Bytes
  import opened Header
  import opened Checksum

  function PayloadSize(ms: seq<Message>): nat {
    if ms == [] then 0 else PayloadSize(ms[..|ms| - 1]) + |ms[|ms| - 1].payload|
  }

  lemma PayloadSizeAppend(ms: seq<Message>, m: Message)
    ensures PayloadSize(ms + [m]) == PayloadSize(ms) + |m.payload|
  {
    assert (ms + [m])[..|ms|] == ms;
  }

  function MessageHeader(m: Message, index: int): (h: seq<byte>)
    ensures |h| == HEADER_SIZE
  {
    HeaderBytes(m, index, PayloadChecksum(m.payload))
  }

  function Record(m: Message, index: int): (r: seq<byte>)
    ensures |r| == HEADER_SIZE + |m.payload|
  {
    MessageHeader(m, index) + m.payload
  }

  /** The records of a batch, in order, with their countdown indices. */
  function Records(ms: seq<Message>): (rs: seq<seq<byte>>)
    ensures |rs| == |ms| && forall i :: 0 <= i < |ms| ==> rs[i] == Record(ms[i], |ms| - 1 - i)
    ensures Sized(rs, ms)
  {
    seq(|ms|, i requires 0 <= i < |ms| => Record(ms[i], |ms| - 1 - i))
  }

  /** Each record takes a header and its payload. */
  predicate Sized(rs: seq<seq<byte>>, ms: seq<Message>) {
    |rs| == |ms| && forall i :: 0 <= i < |rs| ==> |rs[i]| == HEADER_SIZE + |ms[i].payload|
  }

  function Flat<T>(rs: seq<seq<T>>): seq<T> {
    if rs == [] then [] else Flat(rs[..|rs| - 1]) + rs[|rs| - 1]
  }

  function BatchImage(ms: seq<Message>): seq<byte> {
    Flat(Records(ms))
  }

  lemma FlatNext<T>(rs: seq<seq<T>>, k: nat)
    requires k < |rs|
    ensures Flat(rs[..k + 1]) == Flat(rs[..k]) + rs[k]
  {
    assert rs[..k + 1][..k] == rs[..k];
  }

  lemma {:induction false} FlatPrefix<T>(rs: seq<seq<T>>, k: nat)
    requires k <= |rs|
    ensures Flat(rs[..k]) <= Flat(rs)
    decreases |rs| - k
  {
    if k == |rs| {
      assert rs[..k] == rs;
    } else {
      FlatNext(rs, k);
      FlatPrefix(rs, k + 1);
    }
  }

  /** Where record k starts: after the headers and payloads of the messages in front of it. */
  function Start(ms: seq<Message>, k: nat): nat
    requires k <= |ms|
  {
    HEADER_SIZE * k + PayloadSize(ms[..k])
  }

  lemma StartNext(ms: seq<Message>, k: nat)
    requires k < |ms|
    ensures Start(ms, k + 1) == Start(ms, k) + HEADER_SIZE + |ms[k].payload|
  {
    assert ms[..k + 1][..k] == ms[..k];
  }

  lemma {:induction false} StartIsPrefixLength(ms: seq<Message>, rs: seq<seq<byte>>, k: nat)
    requires k <= |ms| && Sized(rs, ms)
    ensures |Flat(rs[..k])| == Start(ms, k)
    decreases k
  {
    if k > 0 {
      StartIsPrefixLength(ms, rs, k - 1);
      FlatNext(rs, k - 1);
      StartNext(ms, k - 1);
    }
  }

  /** The image takes a header per message and the payloads, nothing else. */
  lemma ImageSize(ms: seq<Message>)
    ensures |BatchImage(ms)| == Start(ms, |ms|) == HEADER_SIZE * |ms| + PayloadSize(ms)
  {
    StartIsPrefixLength(ms, Records(ms), |ms|);
    assert ms[..|ms|] == ms && Records(ms)[..|ms|] == Records(ms);
  }

  lemma Placed<T>(whole: seq<T>, front: seq<T>, x: seq<T>)
    requires front + x <= whole
    ensures whole[|front|..|front| + |x|] == x
  {
    assert whole[|front|..|front| + |x|] == (front + x)[|front|..];
  }

  /** The writer is exact: record k occupies precisely [Start(k), Start(k + 1)) with index
      n - 1 - k, the first record starts at 0 and the last one ends at the total size, so the
      records are disjoint and leave no byte uncovered. */
  lemma ImageRecords(ms: seq<Message>, k: nat)
    requires k < |ms|
    ensures Start(ms, 0) == 0 && Start(ms, |ms|) == |BatchImage(ms)|
    ensures Start(ms, k) < Start(ms, k + 1) <= |BatchImage(ms)|
    ensures BatchImage(ms)[Start(ms, k)..Start(ms, k + 1)] == Record(ms[k], |ms| - 1 - k)
  {
    hide HeaderBytes;
    ImageSize(ms);
    var rs := Records(ms);
    StartIsPrefixLength(ms, rs, k);
    StartIsPrefixLength(ms, rs, k + 1);
    FlatNext(rs, k);
    FlatPrefix(rs, k + 1);
    Placed(Flat(rs), Flat(rs[..k]), rs[k]);
  }

  /** The size pass. */
  method MessagesSize(ms: seq<Message>) returns (rval: nat)
    ensures rval == PayloadSize(ms)
  {
    rval := 0;
    if |ms| > 0 {
      var itor := 0;
      while itor != |ms|
        invariant 0 <= itor <= |ms|
        invariant rval == PayloadSize(ms[..itor])
        decreases |ms| - itor
      {
        assert ms[..itor + 1][..itor] == ms[..itor];
        rval := rval + |ms[itor].payload|;
        itor := itor + 1;
      }
    }
    assert ms[..|ms|] == ms;
  }

  lemma Extended<T>(buf: seq<T>, i: nat, j: nat, front: seq<T>, x: seq<T>)
    requires i <= j <= |buf| && buf[..i] == front && buf[i..j] == x
    ensures buf[..j] == front + x
  {
    assert buf[..j] == buf[..i] + buf[i..j];
  }

  /** One turn of the fill pass: the header and body of one message at offset. */
  method WriteRecord(p: array<byte>, offset: nat, m: Message, index: int)
    requires offset + HEADER_SIZE + |m.payload| <= p.Length
    modifies p
    ensures p[..offset + HEADER_SIZE + |m.payload|] == old(p[..offset]) + Record(m, index)
  {
    hide HeaderBytes;
    ghost var front := p[..offset];
    var csum := MessageChecksum(m.payload);
    SetHeader(p, offset, m, index, csum);
    var body := offset + HEADER_SIZE;
    ghost var header := p[offset..body];
    Extended(p[..], offset, body, front, header);
    ghost var head := p[..body];
    CopyIn(p, body, m.payload);
    Extended(p[..], body, body + |m.payload|, head, m.payload);
  }

  /** The fill pass: record after record at the running offset. */
  method FillImage(p: array<byte>, ms: seq<Message>, ghost rs: seq<seq<byte>>)
    requires rs == Records(ms) && |Flat(rs)| <= p.Length
    modifies p
    ensures p[..|Flat(rs)|] == Flat(rs)
  {
    hide HeaderBytes;
    var indexCounter := |ms| - 1;
    var offset := 0;
    for itor := 0 to |ms|
      invariant indexCounter == |ms| - 1 - itor
      invariant offset == |Flat(rs[..itor])| <= p.Length
      invariant p[..offset] == Flat(rs[..itor])
    {
      FlatNext(rs, itor);
      FlatPrefix(rs, itor + 1);
      WriteRecord(p, offset, ms[itor], indexCounter);
      offset := offset + HEADER_SIZE + |ms[itor].payload|;
      indexCounter := indexCounter - 1;
    }
    assert rs[..|ms|] == rs;
  }

  /** A zeroed buffer, sized by the first pass and filled by the second. */
  method WriteImage(ms: seq<Message>, totalPayloadSize: nat) returns (p: array<byte>, totalSize: nat)
    requires totalPayloadSize == PayloadSize(ms)
    ensures fresh(p) && totalSize <= p.Length
    ensures p[..totalSize] == BatchImage(ms)
  {
    totalSize := HEADER_SIZE * |ms| + totalPayloadSize;
    p := new byte[(totalSize + 1) * 2](i => 0);
    ImageSize(ms);
    FillImage(p, ms, Records(ms));
  }
}

/** The packed 1024-byte message header: seven 8-byte integers, a 128-byte key field and an
    840-byte topic field. */
module Header {
  import opened Bytes

  /** A consumed Kafka message. */
  datatype Message = Message(
    topic: string,
    partition: int32,
    offset: int64,
    timestamp: int64,
    key: seq<byte>,
    payload: seq<byte>)

  /** MessageHeaderDetails, in memory order. */
  datatype Details = Details(
    version: int64,
    payloadLen: int64,
    partition: int64,
    offset: int64,
    timestamp: int64,
    index: int64,
    csum: int64)

  const HEADER_SIZE: nat := 1024
  const DETAILS_SIZE: nat := 56
  const KEY_MAX: nat := 128
  const TOPIC_MAX: nat := HEADER_SIZE - DETAILS_SIZE - KEY_MAX

  const KEY_AT: nat := DETAILS_SIZE
  const TOPIC_AT: nat := DETAILS_SIZE + KEY_MAX

  // Positions of the integer fields among the seven words of the struct.
  const VERSION: nat := 0
  const PAYLOAD_LEN: nat := 1
  const PARTITION: nat := 2
  const OFFSET: nat := 3
  const TIMESTAMP: nat := 4
  const INDEX: nat := 5
  const CSUM: nat := 6

  /** Consecutive 8-byte integers in memory. */
  function Words(ws: seq<int>): (r: seq<byte>)
    ensures |r| == 8 * |ws|
  {
    if ws == [] then [] else Int64Bytes(ws[0]) + Words(ws[1..])
  }

  lemma {:induction false} WordAt(ws: seq<int>, k: nat, rest: seq<byte>)
    requires k < |ws|
    ensures (Words(ws) + rest)[8 * k..8 * k + 8] == Int64Bytes(ws[k])
    decreases k
  {
    if k > 0 {
      WordAt(ws[1..], k - 1, rest);
      assert Words(ws) + rest == Int64Bytes(ws[0]) + (Words(ws[1..]) + rest);
      var tail := Words(ws[1..]) + rest;
      assert (Int64Bytes(ws[0]) + tail)[8 * k..8 * k + 8] == tail[8 * (k - 1)..8 * (k - 1) + 8];
    }
  }

  /** The bytes of a std::string; a char of C++ is one byte. */
  function TextBytes(s: string): (b: seq<byte>)
    ensures |b| == |s|
    ensures forall i :: 0 <= i < |s| && s[i] as int < 256 ==> b[i] as int == s[i] as int
  {
    seq(|s|, i requires 0 <= i < |s| => (s[i] as int % 256) as byte)
  }

  /** As much of the text as leaves room for a NUL. */
  function Clipped(b: seq<byte>, size: nat): (r: seq<byte>)
    requires size > 0
    ensures r <= b && |r| < size
    ensures |b| < size <==> r == b
  {
    if |b| > size - 1 then b[..size - 1] else b
  }

  /** A zero-filled char array with the clipped text copied into it. */
  function Field(b: seq<byte>, size: nat): (r: seq<byte>)
    requires size > 0
    ensures |r| == size
  {
    Clipped(b, size) + Zeros(size - |Clipped(b, size)|)
  }

  /** The memory image of a header after set. */
  function HeaderBytes(m: Message, index: int, csum: int): (r: seq<byte>)
    ensures |r| == HEADER_SIZE
  {
    Words(HeaderWords(m, index, csum)) + (Field(m.key, KEY_MAX) + Field(TextBytes(m.topic), TOPIC_MAX))
  }

  function HeaderWords(m: Message, index: int, csum: int): (ws: seq<int>)
    ensures |ws| == 7
  {
    [1, |m.payload|, m.partition, m.offset, m.timestamp, index, csum]
  }

  function Word(h: seq<byte>, k: nat): int64
    requires |h| == HEADER_SIZE && k < 7
  {
    BytesInt64(h[8 * k..8 * k + 8])
  }

  /** Reading the integer fields out of memory. */
  function ReadDetails(h: seq<byte>): Details
    requires |h| == HEADER_SIZE
  {
    Details(Word(h, VERSION), Word(h, PAYLOAD_LEN), Word(h, PARTITION), Word(h, OFFSET),
            Word(h, TIMESTAMP), Word(h, INDEX), Word(h, CSUM))
  }

  function KeyField(h: seq<byte>): (f: seq<byte>)
    requires |h| == HEADER_SIZE
    ensures |f| == KEY_MAX
  {
    h[KEY_AT..TOPIC_AT]
  }

  function TopicField(h: seq<byte>): (f: seq<byte>)
    requires |h| == HEADER_SIZE
    ensures |f| == TOPIC_MAX
  {
    h[TOPIC_AT..]
  }

  lemma HeaderWord(m: Message, index: int64, csum: int64, k: nat)
    requires |m.payload| <= INT64_MAX && k < 7
    ensures Word(HeaderBytes(m, index, csum), k) == HeaderWords(m, index, csum)[k]
  {
    WordAt(HeaderWords(m, index, csum), k, Field(m.key, KEY_MAX) + Field(TextBytes(m.topic), TOPIC_MAX));
    Int64RoundTrip(HeaderWords(m, index, csum)[k]);
  }

  lemma HeaderTexts(m: Message, index: int, csum: int)
    ensures KeyField(HeaderBytes(m, index, csum)) == Field(m.key, KEY_MAX)
    ensures TopicField(HeaderBytes(m, index, csum)) == Field(TextBytes(m.topic), TOPIC_MAX)
  {
    var texts := Field(m.key, KEY_MAX) + Field(TextBytes(m.topic), TOPIC_MAX);
    assert KeyField(HeaderBytes(m, index, csum)) == texts[..KEY_MAX];
    assert TopicField(HeaderBytes(m, index, csum)) == texts[KEY_MAX..];
  }

  /** Reading a header back gives every field that was stored. */
  lemma HeaderRoundTrip(m: Message, index: int64, csum: int64)
    requires |m.payload| <= INT64_MAX
    ensures var h := HeaderBytes(m, index, csum);
            && ReadDetails(h) == Details(1, |m.payload|, m.partition, m.offset, m.timestamp, index, csum)
            && KeyField(h) == Field(m.key, KEY_MAX)
            && TopicField(h) == Field(TextBytes(m.topic), TOPIC_MAX)
  {
    forall k | 0 <= k < 7
      ensures Word(HeaderBytes(m, index, csum), k) == HeaderWords(m, index, csum)[k]
    {
      HeaderWord(m, index, csum, k);
    }
    HeaderTexts(m, index, csum);
  }

  /** A NUL after the text ends it for a C function, whatever follows. */
  lemma {:induction false} CBytesBeforeNul(b: seq<byte>, rest: seq<byte>)
    requires rest != [] && rest[0] == 0
    ensures CBytes(b + rest) == CBytes(b)
    decreases b
  {
    if b == [] {
      assert b + rest == rest;
    } else {
      CBytesBeforeNul(b[1..], rest);
      assert (b + rest)[1..] == b[1..] + rest;
    }
  }

  /** A text field holds as much of the text as leaves room for a NUL, then zeros up to its
      end; a C function reads from it exactly that much of the text, up to its first NUL. */
  lemma FieldText(b: seq<byte>, size: nat, n: nat)
    requires size > 0 && n == if |b| < size then |b| else size - 1
    ensures Field(b, size)[..n] == b[..n]
    ensures forall i :: n <= i < size ==> Field(b, size)[i] == 0
    ensures CBytes(Field(b, size)) == CBytes(b[..n])
  {
    var c := Clipped(b, size);
    assert c == b[..n];
    CBytesBeforeNul(c, Zeros(size - |c|));
  }

  lemma {:induction false} CBytesWhole(b: seq<byte>)
    ensures CBytes(b) == b <==> 0 !in b
  {
    if b != [] {
      CBytesWhole(b[1..]);
      assert b == [b[0]] + b[1..];
    }
  }

  /** Both texts of a header are NUL-terminated. The key that replay produces, strlen(key_field)
      bytes of it, is that of the first 127 bytes of the original key; it is the original key
      exactly when that key holds no NUL and at most 127 bytes. The topic likewise up to 839
      bytes. */
  lemma HeaderTextExactIff(m: Message, index: int, csum: int)
    ensures var h, topic := HeaderBytes(m, index, csum), TextBytes(m.topic);
            && KeyField(h)[127] == 0 && TopicField(h)[839] == 0
            && CBytes(KeyField(h)) == CBytes(m.key[..if |m.key| <= 127 then |m.key| else 127])
            && CBytes(TopicField(h)) == CBytes(topic[..if |topic| <= 839 then |topic| else 839])
            && (CBytes(KeyField(h)) == m.key <==> 0 !in m.key && |m.key| <= 127)
            && (CBytes(TopicField(h)) == topic <==> 0 !in topic && |topic| <= 839)
  {
    hide HeaderBytes, Field, CBytes;
    HeaderTexts(m, index, csum);
    var topic := TextBytes(m.topic);
    var k, t := if |m.key| <= 127 then |m.key| else 127, if |topic| <= 839 then |topic| else 839;
    FieldText(m.key, KEY_MAX, k);
    FieldText(topic, TOPIC_MAX, t);
    assert |m.key| <= 127 ==> m.key[..k] == m.key;
    assert |topic| <= 839 ==> topic[..t] == topic;
    CBytesWhole(m.key);
    CBytesWhole(topic);
  }

  /** The seven integers of a header, byte position by byte position. */
  lemma HeaderIntegers(m: Message, index: int, csum: int)
    ensures var h := HeaderBytes(m, index, csum);
            && |h| == 1024
            && h[0..8] == Int64Bytes(1) && h[8..16] == Int64Bytes(|m.payload|)
            && h[16..24] == Int64Bytes(m.partition) && h[24..32] == Int64Bytes(m.offset)
            && h[32..40] == Int64Bytes(m.timestamp) && h[40..48] == Int64Bytes(index)
            && h[48..56] == Int64Bytes(csum)
  {
    var ws, texts := HeaderWords(m, index, csum), Field(m.key, KEY_MAX) + Field(TextBytes(m.topic), TOPIC_MAX);
    assert HeaderBytes(m, index, csum) == Words(ws) + texts;
    hide HeaderBytes, Words, Field, Int64Bytes;
    WordAt(ws, 0, texts);
    WordAt(ws, 1, texts);
    WordAt(ws, 2, texts);
    WordAt(ws, 3, texts);
    WordAt(ws, 4, texts);
    WordAt(ws, 5, texts);
    WordAt(ws, 6, texts);
  }

  /** Its two texts: the first 127 bytes of the key from 56 on, the first 839 of the topic from
      184 on, and zeros behind each. */
  lemma HeaderTextBytes(m: Message, index: int, csum: int, k: nat, t: nat)
    requires k == (if |m.key| <= 127 then |m.key| else 127) && t == if |m.topic| <= 839 then |m.topic| else 839
    ensures var h := HeaderBytes(m, index, csum);
            && h[56..56 + k] == m.key[..k] && (forall i :: 56 + k <= i < 184 ==> h[i] == 0)
            && h[184..184 + t] == TextBytes(m.topic)[..t] && (forall i :: 184 + t <= i < 1024 ==> h[i] == 0)
  {
    hide HeaderBytes, Field, KeyField, TopicField, TextBytes;
    HeaderTexts(m, index, csum);
    FieldText(m.key, KEY_MAX, k);
    FieldText(TextBytes(m.topic), TOPIC_MAX, t);
    var h := HeaderBytes(m, index, csum);
    TextFields(h);
    InsideSlice(h, 56, 184, Field(m.key, KEY_MAX), k);
    InsideSlice(h, 184, 1024, Field(TextBytes(m.topic), TOPIC_MAX), t);
  }

  lemma TextFields(h: seq<byte>)
    requires |h| == HEADER_SIZE
    ensures h[56..184] == KeyField(h) && h[184..1024] == TopicField(h)
  {
  }

  lemma InsideSlice(h: seq<byte>, at: nat, end: nat, x: seq<byte>, k: nat)
    requires at <= end <= |h| && h[at..end] == x && k <= |x| == end - at
    ensures h[at..at + k] == x[..k]
    ensures forall i :: at <= i < end ==> h[i] == x[i - at]
  {
    assert h[at..end][..k] == h[at..at + k];
    assert forall i :: at <= i < end ==> h[at..end][i - at] == h[i];
  }

  // ---------- writing a header in place ----------

  /** memcpy of bytes to position at of the buffer. */
  method CopyIn(p: array<byte>, at: nat, bytes: seq<byte>)
    requires at + |bytes| <= p.Length
    modifies p
    ensures p[at..at + |bytes|] == bytes
    ensures p[..at] == old(p[..at]) && p[at + |bytes|..] == old(p[at + |bytes|..])
  {
    forall i | 0 <= i < |bytes| {
      p[at + i] := bytes[i];
    }
  }

  /** A header with some of its bytes overwritten. */
  function Patched(h: seq<byte>, at: nat, bytes: seq<byte>): (r: seq<byte>)
    requires at + |bytes| <= |h|
    ensures |r| == |h|
  {
    h[..at] + bytes + h[at + |bytes|..]
  }

  lemma PatchFirst(a: seq<byte>, b: seq<byte>, tail: seq<byte>)
    requires |a| == |b|
    ensures Patched(a + tail, 0, b) == b + tail
  {
  }

  lemma PatchBehind(a: seq<byte>, tail: seq<byte>, at: nat, b: seq<byte>)
    requires at + |b| <= |tail|
    ensures Patched(a + tail, |a| + at, b) == a + Patched(tail, at, b)
  {
  }

  lemma {:induction false} StoreWord(ws: seq<int>, k: nat, v: int, rest: seq<byte>)
    requires k < |ws|
    ensures Patched(Words(ws) + rest, 8 * k, Int64Bytes(v)) == Words(ws[k := v]) + rest
    decreases k
  {
    hide Int64Bytes, Patched;
    var tail := Words(ws[1..]) + rest;
    assert Words(ws) + rest == Int64Bytes(ws[0]) + tail;
    if k == 0 {
      PatchFirst(Int64Bytes(ws[0]), Int64Bytes(v), tail);
      assert ws[0 := v][1..] == ws[1..];
      assert Words(ws[0 := v]) + rest == Int64Bytes(v) + tail;
    } else {
      StoreWord(ws[1..], k - 1, v, rest);
      PatchBehind(Int64Bytes(ws[0]), tail, 8 * (k - 1), Int64Bytes(v));
      assert ws[k := v][1..] == ws[1..][k - 1 := v];
      assert Words(ws[k := v]) + rest == Int64Bytes(ws[0]) + (Words(ws[1..][k - 1 := v]) + rest);
    }
  }

  /** A zeroed struct is seven zero words and two zero-filled texts. */
  lemma ZeroedHeader()
    ensures Zeros(HEADER_SIZE) == Words([0, 0, 0, 0, 0, 0, 0]) + Zeros(KEY_MAX + TOPIC_MAX)
  {
    ZeroWord(0, 8);
    ZeroWords([0, 0, 0, 0, 0, 0, 0]);
  }

  lemma {:induction false} ZeroWord(v: nat, n: nat)
    requires v == 0
    ensures LowBytes(v, n) == Zeros(n)
    decreases n
  {
    if n > 0 {
      ZeroWord(0, n - 1);
    }
  }

  lemma {:induction false} ZeroWords(ws: seq<int>)
    requires forall i :: 0 <= i < |ws| ==> ws[i] == 0
    ensures Words(ws) == Zeros(8 * |ws|)
    decreases ws
  {
    if ws != [] {
      ZeroWord(0, 8);
      ZeroWords(ws[1..]);
    }
  }

  /** Copying the clipped texts over the zeros makes the two text fields. */
  lemma StoreTexts(words: seq<byte>, key: seq<byte>, topic: seq<byte>)
    requires |words| == DETAILS_SIZE
    ensures Patched(Patched(words + Zeros(KEY_MAX + TOPIC_MAX), KEY_AT, Clipped(key, KEY_MAX)),
                    TOPIC_AT, Clipped(topic, TOPIC_MAX))
         == words + (Field(key, KEY_MAX) + Field(topic, TOPIC_MAX))
  {
    var h := words + Zeros(KEY_MAX + TOPIC_MAX);
    assert Patched(h, KEY_AT, Clipped(key, KEY_MAX)) == words + Field(key, KEY_MAX) + Zeros(TOPIC_MAX);
  }

  /** Assigning one field of the header at position at of the buffer. */
  method StoreField(p: array<byte>, at: nat, field: nat, bytes: seq<byte>)
    requires at + HEADER_SIZE <= p.Length && field + |bytes| <= HEADER_SIZE
    modifies p
    ensures p[at..at + HEADER_SIZE] == Patched(old(p[at..at + HEADER_SIZE]), field, bytes)
    ensures p[..at] == old(p[..at]) && p[at + HEADER_SIZE..] == old(p[at + HEADER_SIZE..])
  {
    forall i | 0 <= i < |bytes| {
      p[at + field + i] := bytes[i];
    }
  }

  /** Assigning one integer field; ws are the words stored so far. */
  method StoreInt(p: array<byte>, at: nat, k: nat, v: int, ghost ws: seq<int>) returns (ghost ws': seq<int>)
    requires at + HEADER_SIZE <= p.Length && k < 7 && |ws| == 7
    requires p[at..at + HEADER_SIZE] == Words(ws) + Zeros(KEY_MAX + TOPIC_MAX)
    modifies p
    ensures ws' == ws[k := v]
    ensures p[at..at + HEADER_SIZE] == Words(ws') + Zeros(KEY_MAX + TOPIC_MAX)
    ensures p[..at] == old(p[..at]) && p[at + HEADER_SIZE..] == old(p[at + HEADER_SIZE..])
  {
    StoreField(p, at, 8 * k, Int64Bytes(v));
    StoreWord(ws, k, v, Zeros(KEY_MAX + TOPIC_MAX));
    ws' := ws[k := v];
  }

  /** The first half of set: zeroing the struct and assigning its integers. */
  method SetInts(p: array<byte>, at: nat, m: Message, index: int, csum: int)
    requires at + HEADER_SIZE <= p.Length
    modifies p
    ensures p[at..at + HEADER_SIZE] == Words(HeaderWords(m, index, csum)) + Zeros(KEY_MAX + TOPIC_MAX)
    ensures p[..at] == old(p[..at]) && p[at + HEADER_SIZE..] == old(p[at + HEADER_SIZE..])
  {
    CopyIn(p, at, Zeros(HEADER_SIZE));
    ZeroedHeader();
    ghost var ws := StoreInt(p, at, VERSION, 1, [0, 0, 0, 0, 0, 0, 0]);
    ws := StoreInt(p, at, TIMESTAMP, m.timestamp, ws);
    ws := StoreInt(p, at, PARTITION, m.partition, ws);
    ws := StoreInt(p, at, OFFSET, m.offset, ws);
    ws := StoreInt(p, at, INDEX, index, ws);
    ws := StoreInt(p, at, CSUM, csum, ws);
    ws := StoreInt(p, at, PAYLOAD_LEN, |m.payload|, ws);
    assert ws == HeaderWords(m, index, csum);
  }

  /** MessageHeader::set on the header at position at: the whole struct is zeroed, then the
      fields are assigned one by one, then the two texts are copied in, clipped. */
  method SetHeader(p: array<byte>, at: nat, m: Message, index: int, csum: int)
    requires at + HEADER_SIZE <= p.Length
    modifies p
    ensures p[at..at + HEADER_SIZE] == HeaderBytes(m, index, csum)
    ensures p[..at] == old(p[..at]) && p[at + HEADER_SIZE..] == old(p[at + HEADER_SIZE..])
  {
    SetInts(p, at, m, index, csum);
    StoreField(p, at, KEY_AT, Clipped(m.key, KEY_MAX));
    StoreField(p, at, TOPIC_AT, Clipped(TextBytes(m.topic), TOPIC_MAX));
    StoreTexts(Words(HeaderWords(m, index, csum)), m.key, TextBytes(m.topic));
  }
}

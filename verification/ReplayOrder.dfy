/** The order in which replay iterates over its map, which is the order of key texts. */
module ReplayOrder {
  import opened Text
  import opened Discovery
  import opened Replay

  function Width(n: nat): nat {
    |NatText(n)|
  }

  /** The number without its last j digits. */
  function Leading(n: nat, j: nat): nat
    decreases j
  {
    if j == 0 then n else Leading(n / 10, j - 1)
  }

  lemma WidthMonotone(a: nat, b: nat)
    requires a <= b
    ensures Width(a) <= Width(b)
  {
    NatTextWidth(b, Width(b));
    NatTextWidth(a, Width(b));
  }

  /** Numbers of the same width are ordered as text the way they are ordered as numbers. */
  lemma {:induction false} SameWidthText(a: nat, b: nat, x: string, y: string)
    requires Width(a) == Width(b)
    ensures LexLess(NatText(a) + x, NatText(b) + y) <==> a < b || (a == b && LexLess(x, y))
    decreases a
  {
    var da, db := [Digit(a % 10)], [Digit(b % 10)];
    LastDigit(a % 10, b % 10, x, y);
    if a >= 10 {
      assert b >= 10;
      SameWidthText(a / 10, b / 10, da + x, db + y);
      assert NatText(a) + x == NatText(a / 10) + (da + x);
      assert NatText(b) + y == NatText(b / 10) + (db + y);
    } else {
      assert b < 10;
    }
  }

  lemma LastDigit(c: nat, d: nat, x: string, y: string)
    requires c < 10 && d < 10
    ensures LexLess([Digit(c)] + x, [Digit(d)] + y) <==> c < d || (c == d && LexLess(x, y))
  {
    assert ([Digit(c)] + x)[1..] == x && ([Digit(d)] + y)[1..] == y;
  }

  /** The text of a number starts with the text of its leading digits. */
  lemma {:induction false} LeadingText(n: nat, j: nat) returns (rest: string)
    requires j < Width(n)
    ensures NatText(n) == NatText(Leading(n, j)) + rest && |rest| == j && (j > 0 ==> IsDigit(rest[0]))
    decreases j
  {
    rest := "";
    if j > 0 {
      var front := LeadingText(n / 10, j - 1);
      rest := front + [Digit(n % 10)];
    }
  }

  /** For any two numbers, followed by texts that start below every digit or are empty. */
  lemma TextOrder(a: nat, b: nat, x: string, y: string)
    requires a < b && (x == "" || x[0] < '0')
    ensures Width(a) <= Width(b)
    ensures LexLess(NatText(a) + x, NatText(b) + y) <==> a <= Leading(b, Width(b) - Width(a))
  {
    WidthMonotone(a, b);
    if Width(a) == Width(b) {
      SameWidthText(a, b, x, y);
    } else {
      LongerText(a, b, x, y);
    }
  }

  lemma LongerText(a: nat, b: nat, x: string, y: string)
    requires Width(a) < Width(b) && (x == "" || x[0] < '0')
    ensures LexLess(NatText(a) + x, NatText(b) + y) <==> a <= Leading(b, Width(b) - Width(a))
  {
    hide NatText, Leading, LexLess, AllDigits;
    var lead := Leading(b, Width(b) - Width(a));
    var rest := LeadingText(b, Width(b) - Width(a));
    Associative(NatText(lead), rest, y);
    SameWidthText(a, lead, x, rest + y);
    BelowDigits(x, rest + y);
  }

  lemma Associative(p: string, q: string, r: string)
    ensures (p + q) + r == p + (q + r)
  {
  }

  lemma BelowDigits(x: string, s: string)
    requires (x == "" || x[0] < '0') && s != "" && IsDigit(s[0])
    ensures LexLess(x, s)
  {
  }

  /** The smaller number is at most the number made of as many leading digits of the larger. */
  predicate Compatible(a: nat, b: nat) {
    Width(a) <= Width(b) && a <= Leading(b, Width(b) - Width(a))
  }

  /** Of two different timestamps the earlier one comes first exactly when it is at most the
      number made of as many leading digits of the later one. */
  lemma TimestampOrder(t: nat, o: int, t': nat, o': int)
    requires t < t'
    ensures LexLess(EventKey(t, o), EventKey(t', o')) <==> Compatible(t, t')
  {
    hide NatText, Leading, LexLess, AllDigits;
    TextOrder(t, t', "." + IntText(o), "." + IntText(o'));
    Associative(NatText(t), ".", IntText(o));
    Associative(NatText(t'), ".", IntText(o'));
  }

  /** Of two messages with one timestamp the smaller offset comes first exactly under the same
      condition on the offsets. */
  lemma OffsetOrder(t: int, o: nat, o': nat)
    requires o < o'
    ensures LexLess(EventKey(t, o), EventKey(t, o')) <==> Compatible(o, o')
  {
    hide NatText, Leading, LexLess;
    TextOrder(o, o', "", "");
    assert NatText(o) + "" == NatText(o) && NatText(o') + "" == NatText(o');
    LexCommonPrefix(IntText(t) + ".", NatText(o), NatText(o'));
  }

  /** Offset 10 is replayed in front of offset 9 of the same millisecond. */
  lemma TenBeforeNine(t: int)
    ensures EventKey(t, 10) == IntText(t) + ".10" && EventKey(t, 9) == IntText(t) + ".9"
    ensures LexLess(EventKey(t, 10), EventKey(t, 9))
  {
    assert NatText(9) == "9" && NatText(10) == "10";
    Associative(IntText(t), ".", "10");
    Associative(IntText(t), ".", "9");
    OffsetOrder(t, 9, 10);
    assert NatText(10) == NatText(1) + [Digit(0)] && Leading(10, 1) == Leading(1, 0) == 1;
    if EventKey(t, 10) == EventKey(t, 9) {
      EventKeyInjective(t, 10, t, 9);
    }
    LexTotal(EventKey(t, 10), EventKey(t, 9));
  }

  /** The keys in the order std::map iterates over them. */
  ghost predicate Iteration(order: seq<string>, r: DiscoveryMap) {
    Ascending(order) && forall key :: key in order <==> key in r
  }

  /** Every key starts with its item's timestamp. */
  ghost predicate Keyed(r: DiscoveryMap) {
    forall key :: key in r ==> exists o :: key == EventKey(r[key].timestamp, o)
  }

  ghost predicate Chronological(order: seq<string>, r: DiscoveryMap)
    requires forall i :: 0 <= i < |order| ==> order[i] in r
  {
    forall i, j :: 0 <= i < j < |order| ==> r[order[i]].timestamp <= r[order[j]].timestamp
  }

  /** Two timestamps whose texts are in the order of the numbers. Negative timestamps come in
      front of the others, and are ordered among themselves by their absolute values. */
  predicate InTextOrder(t: int, t': int) {
    t < t' ==> if t >= 0 then Compatible(t, t') else t' >= 0 || !Compatible(-t', -t)
  }

  ghost predicate TextCompatible(r: DiscoveryMap) {
    forall p, q :: p in r && q in r ==> InTextOrder(r[p].timestamp, r[q].timestamp)
  }

  lemma {:induction false} InsertKeyed(out: DiscoveryMap, o: Stored, base: PayloadBase, k: nat)
    requires k <= |o.msgs| && Keyed(out)
    ensures Keyed(InsertFrom(out, o.s3key, o.msgs, base, k))
    decreases |o.msgs| - k
  {
    hide EventKey, ItemOf;
    if k < |o.msgs| {
      var m := o.msgs[k];
      var item := ItemOf(o.s3key, o.msgs, base, k);
      assert item.timestamp == m.timestamp by {
        ItemTimestamp(o, base, k);
      }
      var next := if m.timestamp == 0 then out else out[KeyOf(m) := item];
      assert KeyOf(m) == EventKey(m.timestamp, m.offset);
      InsertKeyed(next, o, base, k + 1);
    }
  }

  lemma ItemTimestamp(o: Stored, base: PayloadBase, k: nat)
    requires k < |o.msgs|
    ensures ItemOf(o.s3key, o.msgs, base, k).timestamp == o.msgs[k].timestamp
  {
  }

  lemma {:induction false} ReplayMapKeyed(objects: seq<Stored>, base: PayloadBase)
    ensures Keyed(ReplayMap(objects, base))
    decreases objects
  {
    hide InsertFrom, EventKey;
    if objects != [] {
      ReplayMapKeyed(objects[..|objects| - 1], base);
      InsertKeyed(ReplayMap(objects[..|objects| - 1], base), objects[|objects| - 1], base, 0);
    }
  }

  lemma NegativeKey(t: int, o: int)
    requires t < 0
    ensures EventKey(t, o) == "-" + EventKey(-t, o)
  {
    hide NatText;
    Associative("-" + NatText(-t), ".", IntText(o));
    Associative("-", NatText(-t), ".");
    Associative("-", NatText(-t) + ".", IntText(o));
  }

  lemma BothNegative(t: int, o: int, t': int, o': int)
    requires t < t' < 0
    ensures LexLess(EventKey(t, o), EventKey(t', o')) <==> InTextOrder(t, t')
  {
    hide LexLess, Compatible, EventKey;
    var p, q := EventKey(-t, o), EventKey(-t', o');
    TimestampOrder(-t', o', -t, o);
    NegativeKey(t, o);
    NegativeKey(t', o');
    LexCommonPrefix("-", p, q);
    LexTotal(p, q);
    if p == q {
      EventKeyInjective(-t, o, -t', o');
    }
  }

  lemma NegativeFirst(t: int, o: int, t': nat, o': int)
    requires t < 0
    ensures LexLess(EventKey(t, o), EventKey(t', o'))
  {
    var key, key' := EventKey(t, o), EventKey(t', o');
    assert key[0] == '-' && key'[0] == NatText(t')[0];
    assert IsDigit(NatText(t')[0]);
  }

  lemma PairOrder(r: DiscoveryMap, p: string, q: string)
    requires Keyed(r) && p in r && q in r && r[p].timestamp < r[q].timestamp
    ensures LexLess(p, q) <==> InTextOrder(r[p].timestamp, r[q].timestamp)
  {
    hide LexLess, Compatible, EventKey;
    var t: int, t': int := r[p].timestamp, r[q].timestamp;
    var o :| p == EventKey(t, o);
    var o' :| q == EventKey(t', o');
    if t >= 0 {
      TimestampOrder(t, o, t', o');
    } else if t' < 0 {
      BothNegative(t, o, t', o');
    } else {
      NegativeFirst(t, o, t', o');
    }
  }

  /** Replay runs in the order of the timestamps exactly when the timestamps are compatible
      with the order of their texts. */
  lemma ChronologicalIff(order: seq<string>, r: DiscoveryMap)
    requires Iteration(order, r) && Keyed(r)
    ensures forall i :: 0 <= i < |order| ==> order[i] in r
    ensures Chronological(order, r) <==> TextCompatible(r)
  {
    hide EventKey, InTextOrder, LexLess, Keyed;
    assert forall i :: 0 <= i < |order| ==> order[i] in order;
    if TextCompatible(r) {
      forall i, j | 0 <= i < j < |order|
        ensures r[order[i]].timestamp <= r[order[j]].timestamp
      {
        if r[order[i]].timestamp > r[order[j]].timestamp {
          PairOrder(r, order[j], order[i]);
          LexTotal(order[i], order[j]);
        }
      }
    }
    if Chronological(order, r) {
      forall p, q | p in r && q in r
        ensures InTextOrder(r[p].timestamp, r[q].timestamp)
      {
        if r[p].timestamp < r[q].timestamp {
          PairOrder(r, p, q);
          var i :| 0 <= i < |order| && order[i] == p;
          var j :| 0 <= j < |order| && order[j] == q;
          assert i < j;
        } else {
          NotEarlier(r[p].timestamp, r[q].timestamp);
        }
      }
    }
  }

  lemma NotEarlier(t: int, t': int)
    requires t >= t'
    ensures InTextOrder(t, t')
  {
  }

  /** In particular if all timestamps are positive and have one width, as milliseconds have
      from 2001 to 2286. */
  lemma SameWidthChronological(objects: seq<Stored>, base: PayloadBase, order: seq<string>, w: nat)
    requires var r := ReplayMap(objects, base);
             Iteration(order, r) && forall key :: key in r ==> r[key].timestamp > 0 && Width(r[key].timestamp) == w
    ensures forall i :: 0 <= i < |order| ==> order[i] in ReplayMap(objects, base)
    ensures Chronological(order, ReplayMap(objects, base))
  {
    hide ReplayMap;
    var r := ReplayMap(objects, base);
    ReplayMapKeyed(objects, base);
    ChronologicalIff(order, r);
  }
}

/** The names of the S3 objects: built when a batch is stashed, taken apart by replay. */
module Keys {
  import opened Text
  import opened MessageTime
  import opened TimeOrder

  /** The fields of the local time strftime is given. */
  datatype Civil = Civil(year: int, month: int, day: int, hour: int, minute: int, second: int)

  /** The fields strftime prints with two digits. */
  predicate TwoWide(c: Civil) {
    0 <= c.month <= 99 && 0 <= c.day <= 99 && 0 <= c.hour <= 99 && 0 <= c.minute <= 99 && 0 <= c.second <= 99
  }

  /** A local time of a year of four digits. */
  predicate Usual(c: Civil) {
    1000 <= c.year <= 9999 && TwoWide(c)
  }

  /** strftime "%Y-%m-%d-%H-%M-%S" */
  function Stamp(c: Civil): string {
    Laid(IntText(c.year), Pad('0', 2, IntText(c.month)), Pad('0', 2, IntText(c.day)),
         Pad('0', 2, IntText(c.hour)), Pad('0', 2, IntText(c.minute)), Pad('0', 2, IntText(c.second)), "")
  }

  const RAND := "-rand"

  function StashKey(topic: string, c: Civil, seed: nat, rnd: nat): string {
    CStr(topic) + "/" + (Stamp(c) + "." + NatText(seed)) + RAND + NatText(rnd)
  }

  /** std::string::find, with the length for npos. */
  function Find(s: string, what: string): (i: nat)
    ensures i <= |s|
  {
    if s == "" || what <= s then 0 else 1 + Find(s[1..], what)
  }

  function CleanupName(prefix: string, key: string): string
    requires |prefix| <= |key|
  {
    var rest := key[|prefix|..];
    rest[..Find(rest, RAND)]
  }

  /** The search finds the first occurrence, or the end of the text if there is none. */
  lemma {:induction false} FindFirst(s: string, what: string, j: nat)
    requires what != "" && j <= |s|
    ensures Find(s, what) < |s| ==> what <= s[Find(s, what)..]
    ensures j < Find(s, what) ==> !(what <= s[j..])
    decreases s
  {
    if s != "" && !(what <= s) {
      FindFirst(s[1..], what, if j == 0 then 0 else j - 1);
      assert s[1..][Find(s[1..], what)..] == s[Find(s, what)..];
      assert j > 0 ==> s[1..][j - 1..] == s[j..];
      assert s[0..] == s;
    }
  }

  /** On any key: what is left is the text behind the prefix up to the first "-rand", or all of
      it if there is none. */
  lemma CleanedUpTo(prefix: string, key: string, j: nat)
    requires |prefix| <= j <= |key|
    ensures var n := |prefix| + |CleanupName(prefix, key)|;
            && n <= |key| && CleanupName(prefix, key) == key[|prefix|..n]
            && (n < |key| ==> "-rand" <= key[n..])
            && (j < n ==> !("-rand" <= key[j..]))
  {
    var rest := key[|prefix|..];
    FindFirst(rest, "-rand", j - |prefix|);
    var i := Find(rest, RAND);
    hide Find;
    assert rest[i..] == key[|prefix| + i..] && rest[j - |prefix|..] == key[j..];
    assert rest[..i] == key[|prefix|..|prefix| + i];
  }

  lemma {:induction false} FindAfter(x: string, y: string)
    requires 'r' !in x
    ensures Find(x + RAND + y, RAND) == |x|
    decreases x
  {
    var s := x + RAND + y;
    if x == "" {
      assert RAND <= s;
    } else {
      assert s[1..] == x[1..] + RAND + y;
      assert s[1] != 'r';
      assert RAND[1] == 'r';
      FindAfter(x[1..], y);
    }
  }

  lemma {:induction false} PadLacks(w: nat, s: string, ch: char)
    requires ch !in s && ch != '0'
    ensures ch !in Pad('0', w, s)
    decreases w - |s|
  {
    if |s| < w {
      PadLacks(w, "0" + s, ch);
    }
  }

  lemma IntLacks(n: int, ch: char)
    requires !IsDigit(ch) && ch != '-'
    ensures ch !in IntText(n) && ch !in Pad('0', 2, IntText(n))
  {
    assert AllDigits(NatText(if n < 0 then -n else n));
    PadLacks(2, IntText(n), ch);
  }

  lemma DashedLacks(a: string, rest: string, ch: char)
    requires ch !in a && ch !in rest && ch != '-'
    ensures ch !in Dashed(a, rest)
  {
  }

  /** A stamp, whatever the fields, holds digits and dashes only; in particular neither the
      letter that starts "rand" nor a slash. */
  lemma StampLacks(c: Civil, ch: char)
    requires !IsDigit(ch) && ch != '-'
    ensures ch !in Stamp(c)
  {
    hide IntText, Pad, Dashed;
    IntLacks(c.year, ch);
    IntLacks(c.month, ch);
    IntLacks(c.day, ch);
    IntLacks(c.hour, ch);
    IntLacks(c.minute, ch);
    IntLacks(c.second, ch);
    var f := n => Pad('0', 2, IntText(n));
    DashedLacks(f(c.minute), f(c.second) + "", ch);
    DashedLacks(f(c.hour), Dashed(f(c.minute), f(c.second) + ""), ch);
    DashedLacks(f(c.day), Dashed(f(c.hour), Dashed(f(c.minute), f(c.second) + "")), ch);
    var d := Dashed(f(c.day), Dashed(f(c.hour), Dashed(f(c.minute), f(c.second) + "")));
    DashedLacks(f(c.month), d, ch);
    DashedLacks(IntText(c.year), Dashed(f(c.month), d), ch);
  }

  /** The part of a key that carries its time. */
  function TimeText(c: Civil, seed: nat): string {
    Stamp(c) + "." + NatText(seed)
  }

  lemma TimeTextNoR(c: Civil, seed: nat)
    ensures 'r' !in TimeText(c, seed)
  {
    hide Stamp, NatText;
    StampLacks(c, 'r');
    assert AllDigits(NatText(seed));
  }

  lemma KeyParts(topic: string, c: Civil, seed: nat, rnd: nat)
    ensures StashKey(topic, c, seed, rnd) == CStr(topic) + ("/" + (TimeText(c, seed) + RAND + NatText(rnd)))
  {
    hide Stamp, CStr, NatText;
  }

  /** Cleaning up with a prefix that ends somewhere in front of the random part leaves the
      rest of the text up to there. */
  lemma CleanedRest(prefix: string, x: string, rnd: nat, key: string)
    requires 'r' !in x && key == prefix + (x + RAND + NatText(rnd))
    ensures CleanupName(prefix, key) == x
  {
    hide NatText;
    assert key[|prefix|..] == x + RAND + NatText(rnd);
    FindAfter(x, NatText(rnd));
  }

  /** Cleaning up removes the prefix and the random part, even of a topic that itself
      contains "-rand". */
  lemma CleanedKey(topic: string, c: Civil, seed: nat, rnd: nat)
    ensures CleanupName(CStr(topic) + "/", StashKey(topic, c, seed, rnd)) == TimeText(c, seed)
  {
    hide TimeText, CStr, NatText, StashKey, CleanupName;
    KeyParts(topic, c, seed, rnd);
    TimeTextNoR(c, seed);
    var rest := TimeText(c, seed) + RAND + NatText(rnd);
    assert CStr(topic) + ("/" + rest) == (CStr(topic) + "/") + rest;
    CleanedRest(CStr(topic) + "/", TimeText(c, seed), rnd, StashKey(topic, c, seed, rnd));
  }

  lemma PaddedDigits(n: int)
    requires 0 <= n <= 99
    ensures |Pad('0', 2, IntText(n))| == 2 && AllDigits(Pad('0', 2, IntText(n)))
  {
    PrintedField('0', 2, n);
    if |NatText(n)| == 1 {
      assert Pad('0', 2, NatText(n)) == "0" + NatText(n);
    }
  }

  lemma YearDigits(year: nat)
    ensures AllDigits(IntText(year))
  {
  }

  lemma StampShape(c: Civil)
    requires Usual(c)
    ensures forall tail :: Stamped(Stamp(c) + tail)
  {
    hide IntText, Pad, Stamped, Laid;
    UsualYear(c);
    assert AllDigits(IntText(c.year)) by {
      YearDigits(c.year);
    }
    PaddedDigits(c.month);
    PaddedDigits(c.day);
    PaddedDigits(c.hour);
    PaddedDigits(c.minute);
    PaddedDigits(c.second);
    var y, mo, d, h, mi, s := IntText(c.year), Pad('0', 2, IntText(c.month)), Pad('0', 2, IntText(c.day)),
      Pad('0', 2, IntText(c.hour)), Pad('0', 2, IntText(c.minute)), Pad('0', 2, IntText(c.second));
    forall tail
      ensures Stamped(Stamp(c) + tail)
    {
      LaidIsStamped(y, mo, d, h, mi, s, tail);
      LaidTail(y, mo, d, h, mi, s, tail);
    }
  }

  lemma LaidIsStamped(y: string, mo: string, d: string, h: string, mi: string, s: string, tail: string)
    requires |y| == 4 && |mo| == |d| == |h| == |mi| == |s| == 2
    requires AllDigits(y) && AllDigits(mo) && AllDigits(d) && AllDigits(h) && AllDigits(mi) && AllDigits(s)
    ensures Stamped(Laid(y, mo, d, h, mi, s, tail))
  {
    hide Laid;
    LaidParts(y, mo, d, h, mi, s, tail);
  }

  lemma StampLength(c: Civil)
    requires TwoWide(c)
    ensures |Stamp(c)| == |IntText(c.year)| + 15
  {
    PaddedDigits(c.month);
    PaddedDigits(c.day);
    PaddedDigits(c.hour);
    PaddedDigits(c.minute);
    PaddedDigits(c.second);
  }

  /** The time a key is built from, as a MessageTime. */
  function KeyTimeOf(c: Civil, seed: nat): Time {
    Time(c.year, c.month, c.day, c.hour, c.minute, c.second, Fraction(NatText(seed)), "." + NatText(seed))
  }

  /** The key format round trip: what was put into a key at stash time is what replay parses
      out of it, given the topic and its slash as prefix, exactly if the text of the year is
      four characters wide. */
  lemma KeyRoundTrip(topic: string, c: Civil, seed: nat, rnd: nat)
    requires TwoWide(c)
    ensures Parse(CleanupName(CStr(topic) + "/", StashKey(topic, c, seed, rnd))) == KeyTimeOf(c, seed) <==>
            |IntText(c.year)| == 4
  {
    hide *;
    CleanedKey(topic, c, seed, rnd);
    ParsedTimeText(c, seed);
  }

  lemma ParsedTimeText(c: Civil, seed: nat)
    requires TwoWide(c)
    ensures Parse(TimeText(c, seed)) == KeyTimeOf(c, seed) <==> |IntText(c.year)| == 4
  {
    if |IntText(c.year)| == 4 {
      FourWideYear(c, seed);
    } else {
      StampLength(c);
      hide Stamp, NatText, IntText;
      SfracLength(TimeText(c, seed));
    }
  }

  lemma SfracLength(s: string)
    ensures |Parse(s).sfrac| == if |s| < 20 then 0 else |s| - 19
  {
    hide Atoi, Atof;
  }

  lemma KeyTimePrintable(c: Civil, seed: nat)
    requires TwoWide(c) && |IntText(c.year)| == 4
    ensures Printable(KeyTimeOf(c, seed))
  {
    assert Pow10(3) == 1000 && Pow10(4) == 10000;
    IntTextWidth(c.year, 4);
    hide IntText, NatText, Atof;
    var tail := "." + NatText(seed);
    assert tail[1..] == NatText(seed);
    AtofPoint(tail);
  }

  lemma FourWideYear(c: Civil, seed: nat)
    requires TwoWide(c) && |IntText(c.year)| == 4
    ensures Parse(TimeText(c, seed)) == KeyTimeOf(c, seed)
  {
    hide Stamp, Parse, ToString, NatText, IntText, Printable;
    var tail := "." + NatText(seed);
    assert TimeText(c, seed) == Stamp(c) + tail;
    StampIsPrinted(c, KeyTimeOf(c, seed), tail);
    KeyTimePrintable(c, seed);
    ParsePrintIff(KeyTimeOf(c, seed));
  }

  /** The stamp and its tail are what MessageTime prints for the same time. */
  lemma StampIsPrinted(c: Civil, t: Time, tail: string)
    requires |IntText(c.year)| == 4
    requires t.year == c.year && t.month == c.month && t.day == c.day
    requires t.hour == c.hour && t.minute == c.minute && t.second == c.second && t.sfrac == tail
    ensures ToString(t) == Stamp(c) + tail
  {
    assert Pad(' ', 4, IntText(c.year)) == IntText(c.year);
    LaidTail(IntText(c.year), Pad('0', 2, IntText(c.month)), Pad('0', 2, IntText(c.day)),
             Pad('0', 2, IntText(c.hour)), Pad('0', 2, IntText(c.minute)), Pad('0', 2, IntText(c.second)), tail);
  }

  lemma UsualYear(c: Civil)
    requires Usual(c)
    ensures |IntText(c.year)| == 4
  {
    assert Pow10(3) == 1000 && Pow10(4) == 10000;
    NatTextWidth(c.year, 3);
    NatTextWidth(c.year, 4);
  }

  /** For a year of four digits the text is a stamp with a fraction. */
  lemma UsualTimeText(c: Civil, seed: nat)
    requires Usual(c)
    ensures KeyTime(TimeText(c, seed)) && |IntText(c.year)| == 4
    ensures Parse(TimeText(c, seed)) == KeyTimeOf(c, seed)
  {
    hide Stamp, NatText, Stamped, Parse, IntText;
    UsualYear(c);
    StampLength(c);
    StampShape(c);
    ParsedTimeText(c, seed);
    assert TimeText(c, seed) == Stamp(c) + ("." + NatText(seed));
    assert TimeText(c, seed)[20..] == NatText(seed);
  }

  // ---------- which keys differ ----------

  lemma LastOccurrence(x: string, ch: char, y: string, x': string, y': string)
    requires ch !in y && ch !in y' && x + [ch] + y == x' + [ch] + y'
    ensures x == x' && y == y'
  {
    var s := x + [ch] + y;
    assert s[|x|] == ch && s[|x'|] == ch;
    assert forall i :: |x| < i < |s| ==> s[i] == y[i - |x| - 1];
    assert forall i :: |x'| < i < |s| ==> s[i] == y'[i - |x'| - 1];
    assert |x| == |x'|;
    assert x == s[..|x|] == x' && y == s[|x| + 1..] == y';
  }

  lemma KeyPieces(topic: string, c: Civil, seed: nat, rnd: nat)
    ensures var a := CStr(topic) + ['/'] + Stamp(c);
            StashKey(topic, c, seed, rnd) == ((a + ['.'] + NatText(seed)) + "-ran") + ['d'] + NatText(rnd)
    ensures 'd' !in NatText(rnd) && '.' !in NatText(seed) && '/' !in Stamp(c)
  {
    StampLacks(c, '/');
    assert AllDigits(NatText(rnd)) && AllDigits(NatText(seed));
    hide Stamp, CStr, NatText;
  }

  lemma SameFront(a: string, b: string, tail: string)
    requires a + tail == b + tail
    ensures a == b
  {
    assert |a| == |b| && (a + tail)[..|a|] == a && (b + tail)[..|b|] == b;
  }

  /** Two keys are the same exactly if topic, second, seed and random number are: whatever the
      topics contain, no other collision is possible. */
  lemma SameKeyIff(topic: string, c: Civil, seed: nat, rnd: nat, topic': string, c': Civil, seed': nat, rnd': nat)
    ensures StashKey(topic, c, seed, rnd) == StashKey(topic', c', seed', rnd') <==>
            CStr(topic) == CStr(topic') && Stamp(c) == Stamp(c') && seed == seed' && rnd == rnd'
  {
    KeyPieces(topic, c, seed, rnd);
    KeyPieces(topic', c', seed', rnd');
    hide Stamp, CStr, NatText, StashKey;
    if StashKey(topic, c, seed, rnd) == StashKey(topic', c', seed', rnd') {
      var a, a' := CStr(topic) + ['/'] + Stamp(c), CStr(topic') + ['/'] + Stamp(c');
      var b, b' := a + ['.'] + NatText(seed), a' + ['.'] + NatText(seed');
      LastOccurrence(b + "-ran", 'd', NatText(rnd), b' + "-ran", NatText(rnd'));
      SameFront(b, b', "-ran");
      LastOccurrence(a, '.', NatText(seed), a', NatText(seed'));
      LastOccurrence(CStr(topic), '/', Stamp(c), CStr(topic'), Stamp(c'));
      NatTextInjective(rnd, rnd');
      NatTextInjective(seed, seed');
    }
  }

  /** The format by example. */
  lemma ExampleKey()
    ensures StashKey("orders", Civil(2018, 6, 27, 14, 11, 53), 12, 7) ==
            "orders" + "/" + ("2018" + "-" + ("06" + "-" + ("27" + "-" + ("14" + "-" + ("11" + "-" + "53"))))
                              + "." + "12") + "-rand" + "7"
  {
    ExampleStamp();
    ExampleNumbers();
    assert NulFree("orders");
    assert CStr("orders") == "orders";
    hide CStr, NatText, Stamp;
  }

  lemma ExampleStamp()
    ensures Stamp(Civil(2018, 6, 27, 14, 11, 53)) ==
            "2018" + "-" + ("06" + "-" + ("27" + "-" + ("14" + "-" + ("11" + "-" + "53"))))
  {
    ExampleNumbers();
    hide NatText;
    assert Pad('0', 2, "6") == "06";
    hide Pad;
    assert "53" + "" == "53";
  }

  lemma ExampleNumbers()
    ensures NatText(2018) == "2018" && NatText(6) == "6" && NatText(27) == "27" && NatText(14) == "14"
    ensures NatText(11) == "11" && NatText(53) == "53" && NatText(12) == "12" && NatText(7) == "7"
  {
    assert NatText(20) == "20" && NatText(201) == "201";
  }

  // ---------- other prefixes ----------

  lemma PrefixSplit(a: string, rest: string, p: string)
    requires a <= p <= a + rest
    ensures p == a + rest[..|p| - |a|]
    ensures a + rest == p + rest[|p| - |a|..]
  {
  }

  lemma NoPoint(rnd: nat)
    ensures '.' !in RAND + NatText(rnd)
  {
    assert AllDigits(NatText(rnd));
  }

  /** The clean-up never lengthens what follows the prefix, and invents no character. */
  lemma CleanupShortens(prefix: string, key: string)
    requires |prefix| <= |key|
    ensures CleanupName(prefix, key) <= key[|prefix|..]
  {
    hide Find;
  }

  /** A prefix that reaches into the time leaves too short a text. */
  lemma PrefixIntoTime(p: string, c: Civil, seed: nat, rnd: nat, j: nat, key: string)
    requires TwoWide(c) && |IntText(c.year)| == 4 && 0 < j <= |TimeText(c, seed)|
    requires key == p + (TimeText(c, seed)[j..] + RAND + NatText(rnd))
    ensures Parse(CleanupName(p, key)) != KeyTimeOf(c, seed)
  {
    TimeTextLength(c, seed);
    TimeTextNoR(c, seed);
    hide TimeText, NatText, IntText, CleanupName, Parse;
    var x := TimeText(c, seed)[j..];
    CleanedRest(p, x, rnd, key);
    SfracLength(x);
  }

  /** A prefix that reaches past the time leaves a text without a point. */
  lemma PrefixPastTime(p: string, c: Civil, seed: nat, rnd: nat, j: nat, key: string)
    requires j <= |RAND + NatText(rnd)| && key == p + (RAND + NatText(rnd))[j..]
    ensures Parse(CleanupName(p, key)) != KeyTimeOf(c, seed)
  {
    NoPoint(rnd);
    hide NatText, CleanupName, Parse;
    CleanupShortens(p, key);
    assert key[|p|..] == (RAND + NatText(rnd))[j..];
    SfracFromText(CleanupName(p, key));
    assert KeyTimeOf(c, seed).sfrac[0] == '.';
  }

  lemma LongPrefixMisreads(p: string, c: Civil, seed: nat, rnd: nat, j: nat, key: string)
    requires TwoWide(c) && |IntText(c.year)| == 4
    requires var rest := TimeText(c, seed) + RAND + NatText(rnd); 0 < j <= |rest| && key == p + rest[j..]
    ensures Parse(CleanupName(p, key)) != KeyTimeOf(c, seed)
  {
    hide TimeText, NatText, IntText, CleanupName, Parse, KeyTimeOf;
    var text := TimeText(c, seed);
    var rest := text + RAND + NatText(rnd);
    if j <= |text| {
      assert rest[j..] == text[j..] + RAND + NatText(rnd);
      PrefixIntoTime(p, c, seed, rnd, j, key);
    } else {
      assert rest == text + (RAND + NatText(rnd));
      assert rest[j..] == (RAND + NatText(rnd))[j - |text|..];
      PrefixPastTime(p, c, seed, rnd, j - |text|, key);
    }
  }

  lemma SfracFromText(s: string)
    ensures var f := Parse(s).sfrac; f != "" ==> f[0] in s
  {
    hide Atoi, Atof;
  }

  lemma SlashDropped(rest: string, j: nat)
    requires 1 <= j <= |rest| + 1
    ensures ("/" + rest)[j..] == rest[j - 1..]
  {
  }

  /** Of all prefixes that contain the topic, exactly the topic with its slash lets replay
      read the time of a key. */
  lemma PrefixIff(topic: string, p: string, c: Civil, seed: nat, rnd: nat)
    requires TwoWide(c) && |IntText(c.year)| == 4
    requires CStr(topic) <= p <= StashKey(topic, c, seed, rnd)
    ensures Parse(CleanupName(p, StashKey(topic, c, seed, rnd))) == KeyTimeOf(c, seed) <==> p == CStr(topic) + "/"
  {
    assert |IntText(0)| == 1;
    hide TimeText, CStr, NatText, Parse, StashKey, CleanupName, IntText;
    var key, rest := StashKey(topic, c, seed, rnd), TimeText(c, seed) + RAND + NatText(rnd);
    KeyParts(topic, c, seed, rnd);
    PrefixSplit(CStr(topic), "/" + rest, p);
    var j := |p| - |CStr(topic)|;
    if j == 0 {
      assert p == CStr(topic);
      BareTopicPrefix(topic, c, seed, rnd);
    } else if j == 1 {
      assert p == CStr(topic) + "/" by {
        assert ("/" + rest)[..1] == "/";
      }
      KeyRoundTrip(topic, c, seed, rnd);
    } else {
      SlashDropped(rest, j);
      LongPrefixMisreads(p, c, seed, rnd, j - 1, key);
    }
  }

  /** Given the bare topic as prefix, the slash stays in front of the time. */
  lemma BareCleaned(topic: string, c: Civil, seed: nat, rnd: nat)
    ensures CleanupName(CStr(topic), StashKey(topic, c, seed, rnd)) == "/" + TimeText(c, seed)
  {
    hide TimeText, CStr, NatText, StashKey, CleanupName;
    KeyParts(topic, c, seed, rnd);
    TimeTextNoR(c, seed);
    var rest := TimeText(c, seed) + RAND + NatText(rnd);
    assert "/" + rest == ("/" + TimeText(c, seed)) + RAND + NatText(rnd);
    CleanedRest(CStr(topic), "/" + TimeText(c, seed), rnd, StashKey(topic, c, seed, rnd));
  }

  /** The year of every key of the topic then reads as 0. */
  lemma BareTopicPrefix(topic: string, c: Civil, seed: nat, rnd: nat)
    ensures Parse(CleanupName(CStr(topic), StashKey(topic, c, seed, rnd))).year in {0, 1970}
    ensures TwoWide(c) ==> Parse(CleanupName(CStr(topic), StashKey(topic, c, seed, rnd))).year == 0
  {
    hide TimeText, CStr, StashKey, CleanupName, Atof;
    BareCleaned(topic, c, seed, rnd);
    var text := "/" + TimeText(c, seed);
    if |text| >= 4 {
      assert text[0..4][0] == '/';
      assert LeadingDigits(text[0..4]) == "";
    }
    if TwoWide(c) {
      TimeTextLength(c, seed);
    }
  }

  lemma TimeTextLength(c: Civil, seed: nat)
    requires TwoWide(c)
    ensures |TimeText(c, seed)| == |IntText(c.year)| + 16 + |NatText(seed)|
  {
    StampLength(c);
    hide Stamp;
  }

  lemma AtoiMinusDigit(x: string)
    requires |x| == 2 && x[0] == '-' && IsDigit(x[1])
    ensures Atoi(x) == 0 - DigitValue(x[1])
  {
    assert x == "-" + x[1..];
    AtoiMinus(x[1..]);
    assert x[1..][..0] == "";
  }

  /** Each other field of a text shifted by one reads as minus its first digit, and the last
      digit of the seconds goes into the fraction. */
  lemma ShiftedTime(text: string)
    requires KeyTime(text) && |text| >= 20 && text[5] == '0'
    ensures var t := Parse("/" + text);
            && t.year == 0 && t.month == 0 && -9 <= t.day <= 0 && -9 <= t.hour <= 0 && -9 <= t.minute <= 0
            && -9 <= t.second <= 0 && 0.0 <= t.frac < 10.0
  {
    var s := "/" + text;
    ShiftedFields(s, text);
    assert LeadingDigits(s[0..4]) == "";
    ParsedFields(s);
    ShiftedFraction(s, text);
    AtoiMinusDigit(s[5..7]);
    AtoiMinusDigit(s[8..10]);
    AtoiMinusDigit(s[11..13]);
    AtoiMinusDigit(s[14..16]);
    AtoiMinusDigit(s[17..19]);
    hide Parse, Stamped;
  }

  lemma ShiftedFraction(s: string, text: string)
    requires KeyTime(text) && |text| >= 20 && s == "/" + text
    ensures 0.0 <= Parse(s).frac < 10.0
  {
    assert text[17..19][1] == text[18];
    var d, ds := text[18], text[20..];
    hide Atof, Atoi, Stamped;
    assert s[19..] == [d] + ("." + ds);
    AtofDigitPoint(d, ds);
    assert DigitValue(d) as real <= 9.0;
  }

  lemma BareTopicFields(c: Civil, seed: nat)
    requires Usual(c) && c.month <= 9
    ensures var t := Parse("/" + TimeText(c, seed));
            && t.year == 0 && t.month == 0 && -9 <= t.day <= 0 && -9 <= t.hour <= 0 && -9 <= t.minute <= 0
            && -9 <= t.second <= 0 && 0.0 <= t.frac < 10.0
  {
    UsualTimeText(c, seed);
    FirstDigits(c, seed);
    TimeTextLength(c, seed);
    hide TimeText, Parse, IntText, NatText, KeyTime;
    ShiftedTime(TimeText(c, seed));
  }

  lemma ShiftedFields(s: string, text: string)
    requires Stamped(text) && s == "/" + text
    ensures s[0..4][0] == '/'
    ensures forall i :: i == 5 || i == 8 || i == 11 || i == 14 || i == 17 ==>
      s[i..i + 2][0] == '-' && s[i..i + 2][1] == text[i] && IsDigit(text[i])
  {
    assert text[5..7][0] == text[5] && text[8..10][0] == text[8] && text[11..13][0] == text[11];
    assert text[14..16][0] == text[14] && text[17..19][0] == text[17];
  }

  lemma AtofDigitPoint(d: char, ds: string)
    requires IsDigit(d) && AllDigits(ds)
    ensures Atof([d] + ("." + ds)) == DigitValue(d) as real + Fraction(ds)
  {
    var s := [d] + ("." + ds);
    OneLeadingDigit(s);
    assert s[1..] == "." + ds && s[1..][1..] == ds;
    LeadingDigitsAll(ds);
    OneDigitValue(d);
    hide Value, LeadingDigits, Fraction;
  }

  lemma OneLeadingDigit(s: string)
    requires |s| >= 2 && IsDigit(s[0]) && !IsDigit(s[1])
    ensures LeadingDigits(s) == [s[0]] && SkipSpaces(s) == s
  {
    assert LeadingDigits(s[1..]) == "";
  }

  lemma OneDigitValue(d: char)
    requires IsDigit(d)
    ensures Value([d]) == DigitValue(d)
  {
    assert [d][..0] == "";
  }

  /** A month up to September is printed with a leading zero. */
  lemma FirstDigits(c: Civil, seed: nat)
    requires Usual(c) && c.month <= 9
    ensures |TimeText(c, seed)| >= 6 && TimeText(c, seed)[5] == '0'
  {
    UsualTimeText(c, seed);
    assert Pad('0', 2, NatText(c.month)) == "0" + NatText(c.month);
    StampLength(c);
    hide NatText;
    assert Stamp(c)[4] == '-' && Stamp(c)[5..][0] == '0';
  }
}

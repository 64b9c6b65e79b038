/** The time an S3 key carries in its name: parsed from text, printed, and compared. */
module MessageTime {
  import opened Text
  import opened Bytes

  /** The value of a MessageTime object. frac is a double in the source, a real here. */
  datatype Time = Time(
    year: int,
    month: int,
    day: int,
    hour: int,
    minute: int,
    second: int,
    frac: real,
    sfrac: string)

  // ---------- atoi and atof ----------

  predicate IsSpace(c: char) {
    c == ' ' || 9 <= c as int <= 13
  }

  function SkipSpaces(s: string): string {
    if s != "" && IsSpace(s[0]) then SkipSpaces(s[1..]) else s
  }

  function LeadingDigits(s: string): (r: string)
    ensures r <= s && AllDigits(r)
    ensures |r| < |s| ==> !IsDigit(s[|r|])
  {
    if s != "" && IsDigit(s[0]) then [s[0]] + LeadingDigits(s[1..]) else ""
  }

  function Atoi(s: string): int {
    var t := SkipSpaces(s);
    if t != "" && t[0] == '-' then 0 - Value(LeadingDigits(t[1..]))
    else if t != "" && t[0] == '+' then Value(LeadingDigits(t[1..]))
    else Value(LeadingDigits(t))
  }

  /** The value of the digits behind a decimal point. */
  function Fraction(ds: string): (r: real)
    requires AllDigits(ds)
    ensures 0.0 <= r < 1.0
  {
    if ds == "" then 0.0 else (DigitValue(ds[0]) as real + Fraction(ds[1..])) / 10.0
  }

  function Unsigned(s: string): real {
    var whole := LeadingDigits(s);
    var rest := s[|whole|..];
    Value(whole) as real +
    if rest != "" && rest[0] == '.' then Fraction(LeadingDigits(rest[1..])) else 0.0
  }

  /** atof on plain decimal notation. */
  function Atof(s: string): real {
    var t := SkipSpaces(s);
    if t != "" && t[0] == '-' then -Unsigned(t[1..])
    else if t != "" && t[0] == '+' then Unsigned(t[1..])
    else Unsigned(t)
  }

  // ---------- parsing, printing, comparing ----------

  const EPOCH := Time(1970, 1, 1, 0, 0, 0, 0.0, "")

  /** What the parsing constructor makes of a text of any length and content. */
  function Parse(s: string): Time {
    Time(
      if |s| < 4 then 1970 else Atoi(s[0..4]),
      if |s| < 7 then 1 else Atoi(s[5..7]),
      if |s| < 10 then 1 else Atoi(s[8..10]),
      if |s| < 13 then 0 else Atoi(s[11..13]),
      if |s| < 16 then 0 else Atoi(s[14..16]),
      if |s| < 19 then 0 else Atoi(s[17..19]),
      if |s| < 20 then 0.0 else Atof(s[19..]),
      if |s| < 20 then "" else s[19..])
  }

  /** setw(w) with a fill character. */
  function Pad(fill: char, w: nat, s: string): string
    decreases w - |s|
  {
    if |s| >= w then s else Pad(fill, w, [fill] + s)
  }

  /** A field, a dash, and what follows. */
  function Dashed(a: string, rest: string): (r: string)
    ensures |r| == |a| + 1 + |rest|
    ensures r[..|a|] == a && r[|a|] == '-' && r[|a| + 1..] == rest
  {
    a + "-" + rest
  }

  /** Six fields, separated by dashes, and a tail. */
  function Laid(y: string, mo: string, d: string, h: string, mi: string, s: string, tail: string): string {
    Dashed(y, Dashed(mo, Dashed(d, Dashed(h, Dashed(mi, s + tail)))))
  }

  /** The year is filled with spaces: setfill('0') comes after it. */
  function ToString(t: Time): string {
    Laid(Pad(' ', 4, IntText(t.year)),
         Pad('0', 2, IntText(t.month)),
         Pad('0', 2, IntText(t.day)),
         Pad('0', 2, IntText(t.hour)),
         Pad('0', 2, IntText(t.minute)),
         Pad('0', 2, IntText(t.second)),
         t.sfrac)
  }

  /** The month table. The C++ reads outside its table for any other month; nothing below
      relies on the 0 used here. */
  function MonthLength(month: int): nat {
    if month == 2 then 28
    else if month == 4 || month == 6 || month == 9 || month == 11 then 30
    else if 1 <= month <= 12 then 31
    else 0
  }

  function LeapSeconds(year: int): nat {
    if year % 4 == 0 && year % 100 == 0 && year % 400 == 0 then 86400 else 0
  }

  /** So the leap day is applied to years divisible by 400 only. */
  lemma LeapYears(year: int)
    ensures LeapSeconds(year) == if year % 400 == 0 then 86400 else 0
  {
    if year % 400 == 0 {
      var q := year / 400;
      assert year == 4 * (100 * q) == 100 * (4 * q);
    }
  }

  /** The number the comparisons use. The product with the year is a 32-bit int. */
  function Seconds(t: Time): real {
    Wrap32(t.year * 31536000) as real +
    (t.month * (86400 * MonthLength(t.month))) as real +
    (t.day * 86400) as real + (t.hour * 3600) as real + (t.minute * 60) as real +
    t.second as real + t.frac + LeapSeconds(t.year) as real
  }

  /** operator ==, which leaves sfrac out. */
  predicate Same(a: Time, b: Time) {
    a.(sfrac := "") == b.(sfrac := "")
  }

  /** operator > */
  predicate Greater(a: Time, b: Time) {
    !Same(a, b) && Seconds(a) > Seconds(b)
  }

  /** The object: the constructor starts from cleared fields and overwrites as many as the
      text is long enough for. */
  class MessageTime {
    var year: int
    var month: int
    var day: int
    var hour: int
    var minute: int
    var second: int
    var frac: real
    var sfrac: string

    function Value(): Time
      reads this
    {
      Time(year, month, day, hour, minute, second, frac, sfrac)
    }

    method Clear()
      modifies this
      ensures Value() == EPOCH
    {
      year := 1970;
      month := 1;
      day := 1;
      hour := 0;
      minute := 0;
      second := 0;
      frac := 0.0;
      sfrac := "";
    }

    constructor FromText(s: string)
      ensures Value() == Parse(s)
    {
      new;
      Clear();
      var len := |s|;
      if len < 4 { return; }
      year := Atoi(s[0..4]);
      if len < 7 { return; }
      month := Atoi(s[5..7]);
      if len < 10 { return; }
      day := Atoi(s[8..10]);
      if len < 13 { return; }
      hour := Atoi(s[11..13]);
      if len < 16 { return; }
      minute := Atoi(s[14..16]);
      if len < 19 { return; }
      second := Atoi(s[17..19]);
      if len < 20 { return; }
      var t := s[19..];
      frac := Atof(t);
      sfrac := t;
    }

    method Timestamp() returns (rval: real)
      ensures rval == Seconds(Value())
    {
      rval := 0.0;
      var leap := 0.0;
      if year % 4 == 0 {
        if year % 100 == 0 {
          if year % 400 == 0 {
            leap := 86400.0;
          }
        }
      }
      rval := rval + Wrap32(year * 31536000) as real;
      rval := rval + (month * (86400 * MonthLength(month))) as real;
      rval := rval + (day * 86400) as real;
      rval := rval + (hour * 3600) as real;
      rval := rval + (minute * 60) as real;
      rval := rval + second as real;
      rval := rval + frac;
      rval := rval + leap;
    }

    method IsGreater(other: MessageTime) returns (r: bool)
      ensures r == Greater(Value(), other.Value())
    {
      if Same(Value(), other.Value()) {
        return false;
      }
      var mine := Timestamp();
      var theirs := other.Timestamp();
      return mine > theirs;
    }
  }

  // ---------- text round trips ----------

  lemma {:induction false} LeadingDigitsAll(s: string)
    requires AllDigits(s)
    ensures LeadingDigits(s) == s
    decreases s
  {
    if s != "" {
      assert AllDigits(s[1..]);
      LeadingDigitsAll(s[1..]);
    }
  }

  lemma {:induction false} ValueFront(d: char, s: string, p: nat)
    requires IsDigit(d) && AllDigits(s) && p == Pow10(|s|)
    ensures AllDigits([d] + s) && Value([d] + s) == DigitValue(d) * p + Value(s)
    decreases |s|
  {
    var t := [d] + s;
    if s == "" {
      assert t[..0] == "";
    } else {
      var front, q := s[..|s| - 1], Pow10(|s| - 1);
      ValueFront(d, front, q);
      assert t[..|t| - 1] == [d] + front && t[|t| - 1] == s[|s| - 1];
      TimesTen(DigitValue(d), q);
    }
  }

  lemma TimesTen(a: nat, p: nat)
    ensures a * p * 10 == a * (10 * p)
  {
  }

  function Scaled(f: real, p: nat): real {
    f * p as real
  }

  lemma RealProduct(a: nat, b: nat)
    ensures (a * b) as real == a as real * b as real
  {
  }

  lemma TenthsOf(d: nat, rest: real, q: nat, value: nat)
    requires Scaled(rest, q) == value as real
    ensures Scaled((d as real + rest) / 10.0, 10 * q) == (d * q + value) as real
  {
    RealProduct(d, q);
    assert (10 * q) as real == 10.0 * q as real;
    var x, y := d as real, q as real;
    var f := (x + rest) / 10.0;
    assert f * (10.0 * y) == (f * 10.0) * y == (x + rest) * y == x * y + rest * y;
  }

  /** n digits behind the point are worth their number over 10^n. */
  lemma {:induction false} FractionValue(ds: string, p: nat)
    requires AllDigits(ds) && p == Pow10(|ds|)
    ensures Scaled(Fraction(ds), p) == Value(ds) as real
    decreases ds
  {
    if ds == "" {
      EmptyValue();
    } else {
      var q := Pow10(|ds| - 1);
      assert Fraction(ds) == (DigitValue(ds[0]) as real + Fraction(ds[1..])) / 10.0;
      assert p == 10 * q;
      hide Fraction, Pow10, Value, Scaled;
      FractionValue(ds[1..], q);
      ValueFront(ds[0], ds[1..], q);
      assert ds == [ds[0]] + ds[1..];
      TenthsOf(DigitValue(ds[0]), Fraction(ds[1..]), q, Value(ds[1..]));
    }
  }

  lemma EmptyValue()
    ensures Value("") == 0
  {
  }

  lemma AtoiDigits(s: string)
    requires AllDigits(s) && s != ""
    ensures Atoi(s) == Value(s)
  {
    assert IsDigit(s[0]);
    LeadingDigitsAll(s);
  }

  lemma AtoiIntText(n: int)
    ensures Atoi(IntText(n)) == n
    ensures IntText(n) != ""
  {
    hide Atoi, Value, NatText;
    if n < 0 {
      AtoiMinus(NatText(-n));
      ValueOfNatText(-n);
    } else {
      AtoiDigits(NatText(n));
      ValueOfNatText(n);
    }
  }

  lemma AtoiMinus(s: string)
    requires AllDigits(s)
    ensures Atoi("-" + s) == 0 - Value(s)
  {
    hide Value;
    assert SkipSpaces("-" + s) == "-" + s;
    assert ("-" + s)[1..] == s;
    LeadingDigitsAll(s);
  }

  lemma {:induction false} SpacesSkipped(spaces: string, t: string)
    requires forall c :: c in spaces ==> c in {' ', '\t', '\n', '\r', '\U{0B}', '\U{0C}'}
    requires t == "" || t[0] !in {' ', '\t', '\n', '\r', '\U{0B}', '\U{0C}'}
    ensures SkipSpaces(spaces + t) == t
    decreases spaces
  {
    if spaces == "" {
      assert spaces + t == t;
    } else {
      assert spaces[0] in spaces;
      assert forall c :: c in spaces[1..] ==> c in spaces;
      SpacesSkipped(spaces[1..], t);
      assert (spaces + t)[1..] == spaces[1..] + t;
    }
  }

  lemma {:induction false} DigitsTaken(ds: string, rest: string)
    requires AllDigits(ds) && (rest == "" || !IsDigit(rest[0]))
    ensures LeadingDigits(ds + rest) == ds
    decreases ds
  {
    if ds == "" {
      assert ds + rest == rest;
    } else {
      DigitsTaken(ds[1..], rest);
      assert (ds + rest)[1..] == ds[1..] + rest;
    }
  }

  /** atoi on any text: white space, a sign, digits, and anything else. */
  lemma AtoiReads(spaces: string, sign: string, ds: string, rest: string)
    requires forall c :: c in spaces ==> c in {' ', '\t', '\n', '\r', '\U{0B}', '\U{0C}'}
    requires sign in {"", "+", "-"} && AllDigits(ds) && (rest == "" || !IsDigit(rest[0]))
    requires sign == ds == "" && rest != "" ==> rest[0] !in {' ', '\t', '\n', '\r', '\U{0B}', '\U{0C}', '+', '-'}
    ensures Atoi(spaces + (sign + (ds + rest))) == if sign == "-" then 0 - Value(ds) else Value(ds)
  {
    hide Value;
    var t := sign + (ds + rest);
    SpacesSkipped(spaces, t);
    DigitsTaken(ds, rest);
    if sign == "" {
      assert t == ds + rest;
    } else {
      assert t[1..] == ds + rest;
    }
  }

  lemma UnsignedReads(ds: string, fs: string, rest: string)
    requires AllDigits(ds) && AllDigits(fs) && (rest == "" || !IsDigit(rest[0]))
    ensures rest == "" || rest[0] != '.' ==> Unsigned(ds + rest) == Value(ds) as real
    ensures Unsigned(ds + ("." + (fs + rest))) == Value(ds) as real + Fraction(fs)
  {
    hide Value, Fraction;
    DigitsTaken(ds, rest);
    DigitsTaken(ds, "." + (fs + rest));
    DigitsTaken(fs, rest);
    assert (ds + rest)[|ds|..] == rest;
    assert (ds + ("." + (fs + rest)))[|ds|..] == "." + (fs + rest);
    assert ("." + (fs + rest))[1..] == fs + rest;
  }

  /** atof on plain decimal notation: white space, a sign, digits, perhaps a point and more
      digits, and then anything but an exponent. */
  lemma AtofReads(spaces: string, sign: string, ds: string, fs: string, rest: string, value: real)
    requires forall c :: c in spaces ==> c in {' ', '\t', '\n', '\r', '\U{0B}', '\U{0C}'}
    requires sign in {"", "+", "-"} && AllDigits(ds) && AllDigits(fs)
    requires rest == "" || (!IsDigit(rest[0]) && rest[0] !in {'e', 'E', 'x', 'X'})
    requires value == Value(ds) as real
    ensures ds != "" && (rest == "" || rest[0] != '.') ==>
            Atof(spaces + (sign + (ds + rest))) == if sign == "-" then -value else value
    ensures Atof(spaces + (sign + (ds + ("." + (fs + rest))))) ==
            if sign == "-" then -(value + Fraction(fs)) else value + Fraction(fs)
  {
    UnsignedReads(ds, fs, rest);
    hide Unsigned, Value, Fraction;
    if ds != "" {
      SignedReads(spaces, sign, ds + rest);
    }
    SignedReads(spaces, sign, ds + ("." + (fs + rest)));
  }

  lemma SignedReads(spaces: string, sign: string, number: string)
    requires forall c :: c in spaces ==> c in {' ', '\t', '\n', '\r', '\U{0B}', '\U{0C}'}
    requires sign in {"", "+", "-"}
    requires number == "" || IsDigit(number[0]) || number[0] == '.'
    ensures Atof(spaces + (sign + number)) == if sign == "-" then -Unsigned(number) else Unsigned(number)
  {
    hide Unsigned;
    var t := sign + number;
    SpacesSkipped(spaces, t);
    if sign == "" {
      assert t == number;
    } else {
      assert t[1..] == number;
    }
  }

  /** A padded number has exactly the field's width when it fits, and reads back. Zeros are
      put in front of a minus sign only in fields wider than two. */
  lemma {:induction false} AtoiPad(fill: char, w: nat, n: int, s: string)
    requires |s| <= w && s != "" && Atoi(s) == n
    requires fill == ' ' || (fill == '0' && (AllDigits(s) || |s| == w))
    ensures |Pad(fill, w, s)| == w && Atoi(Pad(fill, w, s)) == n
    decreases w - |s|
  {
    if |s| < w {
      if fill == '0' {
        LeadingZero(s);
        AtoiDigits(s);
        AtoiDigits("0" + s);
      }
      AtoiPad(fill, w, n, [fill] + s);
    }
  }

  lemma IntTextWidth(n: int, w: nat)
    requires w >= 2
    ensures |IntText(n)| <= w <==> 0 - Pow10(w - 1) < n < Pow10(w)
  {
    if n < 0 {
      NatTextWidth(-n, w - 1);
    } else {
      NatTextWidth(n, w);
    }
  }

  lemma PrintedField(fill: char, w: nat, n: int)
    requires (fill == ' ' && w == 4 && -999 <= n <= 9999) || (fill == '0' && w == 2 && -9 <= n <= 99)
    ensures |Pad(fill, w, IntText(n))| == w && Atoi(Pad(fill, w, IntText(n))) == n
  {
    assert Pow10(1) == 10 && Pow10(2) == 100 && Pow10(3) == 1000 && Pow10(4) == 10000;
    IntTextWidth(n, w);
    AtoiIntText(n);
    AtoiPad(fill, w, n, IntText(n));
  }

  lemma {:induction false} SkipSpacesShorter(s: string)
    ensures |SkipSpaces(s)| <= |s|
    decreases s
  {
    if s != "" && IsSpace(s[0]) {
      SkipSpacesShorter(s[1..]);
    }
  }

  lemma {:induction false} Pow10Monotone(m: nat, n: nat)
    requires m <= n
    ensures Pow10(m) <= Pow10(n)
  {
    if m < n {
      Pow10Monotone(m, n - 1);
    }
  }

  /** A short text reads as a number that fits the text. */
  lemma AtoiRange(s: string, w: nat)
    requires |s| <= w && w >= 1
    ensures 0 - Pow10(w - 1) < Atoi(s) < Pow10(w)
  {
    SkipSpacesShorter(s);
    var t := SkipSpaces(s);
    var ds := if t != "" && (t[0] == '-' || t[0] == '+') then LeadingDigits(t[1..]) else LeadingDigits(t);
    ValueBound(ds);
    Pow10Monotone(|ds|, if t != "" && (t[0] == '-' || t[0] == '+') then w - 1 else w);
    Pow10Monotone(w - 1, w);
  }

  /** The times that have a text of their own. */
  predicate Printable(t: Time) {
    -999 <= t.year <= 9999 && -9 <= t.month <= 99 && -9 <= t.day <= 99 &&
    -9 <= t.hour <= 99 && -9 <= t.minute <= 99 && -9 <= t.second <= 99 &&
    t.frac == Atof(t.sfrac)
  }

  lemma ParseIsPrintable(s: string)
    ensures Printable(Parse(s))
  {
    assert Atof("") == 0.0;
    hide Atof, Atoi;
    assert Pow10(1) == 10 && Pow10(2) == 100 && Pow10(3) == 1000 && Pow10(4) == 10000;
    if |s| >= 4 { AtoiRange(s[0..4], 4); }
    if |s| >= 7 { AtoiRange(s[5..7], 2); }
    if |s| >= 10 { AtoiRange(s[8..10], 2); }
    if |s| >= 13 { AtoiRange(s[11..13], 2); }
    if |s| >= 16 { AtoiRange(s[14..16], 2); }
    if |s| >= 19 { AtoiRange(s[17..19], 2); }
  }

  lemma LaidParts(y: string, mo: string, d: string, h: string, mi: string, s: string, tail: string)
    requires |y| == 4 && |mo| == |d| == |h| == |mi| == |s| == 2
    ensures var x := Laid(y, mo, d, h, mi, s, tail);
            && |x| == 19 + |tail|
            && x[0..4] == y && x[5..7] == mo && x[8..10] == d
            && x[11..13] == h && x[14..16] == mi && x[17..19] == s && x[19..] == tail
            && x[4] == x[7] == x[10] == x[13] == x[16] == '-'
  {
    hide Dashed;
    var x := Laid(y, mo, d, h, mi, s, tail);
    var r5 := Dashed(mi, s + tail);
    var r4 := Dashed(h, r5);
    var r3 := Dashed(d, r4);
    var r2 := Dashed(mo, r3);
    CutTwice(x, 5, r2);
    CutTwice(x, 8, r3);
    CutTwice(x, 11, r4);
    CutTwice(x, 14, r5);
    CutTwice(x, 17, s + tail);
  }

  lemma CutTwice(x: string, i: nat, rest: string)
    requires i <= |x| && x[i..] == rest && |rest| >= 2
    ensures x[i..i + 2] == rest[..2] && x[i + 2..] == rest[2..]
    ensures |rest| >= 3 ==> x[i + 2] == rest[2] && x[i + 3..] == rest[3..]
  {
  }

  lemma DashedTail(a: string, rest: string, tail: string)
    ensures Dashed(a, rest) + tail == Dashed(a, rest + tail)
  {
  }

  /** What follows the six fields is the tail. */
  lemma LaidTail(y: string, mo: string, d: string, h: string, mi: string, s: string, tail: string)
    ensures Laid(y, mo, d, h, mi, s, "") + tail == Laid(y, mo, d, h, mi, s, tail)
  {
    hide Dashed;
    assert s + "" == s;
    var r5 := Dashed(mi, s);
    var r4 := Dashed(h, r5);
    var r3 := Dashed(d, r4);
    var r2 := Dashed(mo, r3);
    DashedTail(mi, s, tail);
    DashedTail(h, r5, tail);
    DashedTail(d, r4, tail);
    DashedTail(mo, r3, tail);
    DashedTail(y, r2, tail);
  }

  /** Printing and parsing again gives back the same time exactly for the printable times. */
  lemma ParsePrintIff(t: Time)
    ensures Parse(ToString(t)) == t <==> Printable(t)
  {
    ParseIsPrintable(ToString(t));
    if Printable(t) {
      PrintedField(' ', 4, t.year);
      PrintedField('0', 2, t.month);
      PrintedField('0', 2, t.day);
      PrintedField('0', 2, t.hour);
      PrintedField('0', 2, t.minute);
      PrintedField('0', 2, t.second);
      LaidParts(Pad(' ', 4, IntText(t.year)), Pad('0', 2, IntText(t.month)), Pad('0', 2, IntText(t.day)),
                Pad('0', 2, IntText(t.hour)), Pad('0', 2, IntText(t.minute)), Pad('0', 2, IntText(t.second)),
                t.sfrac);
    }
  }

  predicate DigitsAt(s: string, i: nat, j: nat)
    requires i <= j <= |s|
  {
    AllDigits(s[i..j])
  }

  /** YYYY-MM-DD-HH-MM-SS in front of anything. */
  predicate Stamped(s: string) {
    |s| >= 19 && DigitsAt(s, 0, 4) && s[4] == '-' && DigitsAt(s, 5, 7) && s[7] == '-' &&
    DigitsAt(s, 8, 10) && s[10] == '-' && DigitsAt(s, 11, 13) && s[13] == '-' &&
    DigitsAt(s, 14, 16) && s[16] == '-' && DigitsAt(s, 17, 19)
  }

  /** A number without a leading zero is printed the way it was written. */
  lemma {:induction false} NatTextOfValue(s: string)
    requires AllDigits(s) && s != "" && (s[0] != '0' || |s| == 1)
    ensures NatText(Value(s)) == s
    ensures s[0] != '0' ==> Value(s) > 0
    decreases |s|
  {
    var front, last := s[..|s| - 1], s[|s| - 1];
    if |s| == 1 {
      assert front == "" && s == [last];
    } else {
      NatTextOfValue(front);
      assert s == front + [last];
    }
  }

  lemma TwoDigits(s: string)
    requires |s| == 2 && AllDigits(s)
    ensures Pad('0', 2, IntText(Atoi(s))) == s
  {
    AtoiDigits(s);
    if s[0] == '0' {
      LeadingZero(s[1..]);
      assert s == "0" + s[1..];
      NatTextOfValue(s[1..]);
      assert Pad('0', 2, "0" + s[1..]) == "0" + s[1..];
    } else {
      NatTextOfValue(s);
    }
  }

  lemma PrintedYear(s: string)
    requires |s| == 4 && AllDigits(s) && s[0] != '0'
    ensures Pad(' ', 4, IntText(Atoi(s))) == s
  {
    AtoiDigits(s);
    NatTextOfValue(s);
  }

  lemma ParsedFields(s: string)
    requires |s| >= 19
    ensures var t := Parse(s);
            && t.year == Atoi(s[0..4]) && t.month == Atoi(s[5..7]) && t.day == Atoi(s[8..10])
            && t.hour == Atoi(s[11..13]) && t.minute == Atoi(s[14..16]) && t.second == Atoi(s[17..19])
            && t.sfrac == s[19..]
  {
    hide Atoi, Atof;
  }

  /** Parsing a stamp of a year of four digits and printing it again gives back the text,
      whatever follows the seconds. */
  lemma PrintParse(s: string)
    requires Stamped(s) && s[0] != '0'
    ensures ToString(Parse(s)) == s
  {
    Reassembled(s);
    ParsedFields(s);
    hide Atoi, Pad, IntText, Parse;
    PrintedYear(s[0..4]);
    TwoDigits(s[5..7]);
    TwoDigits(s[8..10]);
    TwoDigits(s[11..13]);
    TwoDigits(s[14..16]);
    TwoDigits(s[17..19]);
  }

  lemma Reassembled(s: string)
    requires Stamped(s)
    ensures s == Laid(s[0..4], s[5..7], s[8..10], s[11..13], s[14..16], s[17..19], s[19..])
  {
    SplitAtDash(s, 14);
    SplitAtDash(s, 11);
    SplitAtDash(s, 8);
    SplitAtDash(s, 5);
    assert s[17..] == s[17..19] + s[19..];
    assert s == Dashed(s[0..4], s[5..]);
  }

  lemma SplitAtDash(s: string, i: nat)
    requires i + 3 <= |s| && s[i + 2] == '-'
    ensures s[i..] == Dashed(s[i..i + 2], s[i + 3..])
  {
  }
}

/** Duration fields: milliseconds stored in base 62 and printed back in the designator form of
    section 4.4.3.2 of ISO 8601:2004 (src/schema.class.ts), which the validator parses
    (src/validator.class.ts). Seconds are exact decimal fractions here; `FloatExact` says how far
    that is what the code computes. */
module Duration {
  import opened Options
  import opened Numerals
  import opened PackedFields

  // Printing.

  function Part(n: int, letter: char): string {
    if n == 0 then "" else PrintInt(n, 10) + [letter]
  }

  function MillisText(millis: int): string {
    PadStart(PrintInt(millis, 10), 3)
  }

  function SecondsPart(seconds: int, millis: int): string {
    if seconds != 0 && millis != 0 then PrintInt(seconds, 10) + "." + MillisText(millis) + "S"
    else if seconds != 0 then PrintInt(seconds, 10) + "S"
    else if millis != 0 then "0." + MillisText(millis) + "S"
    else ""
  }

  function TimePart(hours: int, minutes: int, seconds: int, millis: int): string {
    Part(hours, 'H') + Part(minutes, 'M') + SecondsPart(seconds, millis)
  }

  function Assemble(days: int, time: string): string {
    var result := "P" + Part(days, 'D') + (if time == "" then "" else "T" + time);
    if result == "P" then "PT0S" else result
  }

  function Designators(ms: int): string {
    Assemble(ms / 86400000,
        TimePart(JsRem(ms, 86400000) / 3600000, JsRem(ms, 3600000) / 60000, JsRem(ms, 60000) / 1000, JsRem(ms, 1000)))
  }

  function EncodeDuration(ms: nat): string {
    Print(ms, 62)
  }

  // Texts starting with 'P' are taken for a designator form and left alone.
  function DecodeDuration(s: string): string {
    if s != "" && s[0] != 'P' then
      match Read(s, 62)
      case None => "PT0S"
      case Some(ms) => Designators(ms)
    else s
  }

  // Parsing.

  // A number read and what is left of the text.
  datatype Taken = Taken(number: nat, rest: string)

  // (?:(\d+)L)? and what is left.
  function TakeField(s: string, letter: char): Taken {
    var n := DigitPrefix(s, 10);
    if 0 < n < |s| && s[n] == letter then Taken(Value(s[..n], 10), s[n + 1..]) else Taken(0, s)
  }

  // Math.round of 1000 times the fraction 0.f: three digits, one more when the fourth is 5 or above.
  function RoundedMillis(fraction: string): nat {
    if |fraction| <= 3 then Millis(fraction)
    else Value(fraction[..3], 10) + (if ValueOf(fraction[3]) >= 5 then 1 else 0)
  }

  // (?:\.\d+)?S after the whole seconds, in milliseconds, and what is left.
  function TakeTail(s: string): Option<Taken> {
    if s != "" && s[0] == 'S' then Some(Taken(0, s[1..]))
    else if s != "" && s[0] == '.' then
      var f := DigitPrefix(s[1..], 10);
      if 0 < f < |s[1..]| && s[1 + f] == 'S' then Some(Taken(RoundedMillis(s[1..][..f]), s[2 + f..])) else None
    else None
  }

  // (?:(\d+(?:\.\d+)?)S)? in milliseconds, and what is left.
  function TakeSeconds(s: string): Taken {
    var n := DigitPrefix(s, 10);
    if n == 0 then Taken(0, s)
    else
      match TakeTail(s[n..])
      case Some(tail) => Taken(1000 * Value(s[..n], 10) + tail.number, tail.rest)
      case None => Taken(0, s)
  }

  // (?:(\d+)H)?(?:(\d+)M)?(?:(\d+(?:\.\d+)?)S)?$ in milliseconds.
  function ParseTimeFields(s: string): Option<nat> {
    var Taken(hours, rest1) := TakeField(s, 'H');
    var Taken(minutes, rest2) := TakeField(rest1, 'M');
    var Taken(millis, rest3) := TakeSeconds(rest2);
    if rest3 == "" then Some(hours * 3600000 + minutes * 60000 + millis) else None
  }

  // The designator branch of the validator. None: the pattern does not match, and the free
  // form ("1h30m") or the error branch applies.
  function ParseDesignators(v: string): Option<nat> {
    if v == "" || v[0] != 'P' || v == "P" || v == "PT" then None
    else
      var Taken(days, rest) := TakeField(v[1..], 'D');
      if rest == "" then Some(days * 86400000)
      else if rest[0] != 'T' then None
      else
        match ParseTimeFields(rest[1..])
        case Some(ms) => Some(days * 86400000 + ms)
        case None => None
  }

  // What follows is not a field with this letter.
  ghost predicate NoField(s: string, letter: char) {
    TakeField(s, letter) == Taken(0, s)
  }

  // A designator text as one may write it: digits with their letter, each field perhaps missing.

  function Field(digits: string, letter: char): string {
    if digits == "" then "" else digits + [letter]
  }

  function SecondsField(s: string, f: string): string {
    if s == "" then "" else s + (if f == "" then "" else "." + f) + "S"
  }

  function TimeFields(h: string, m: string, s: string, f: string): string {
    Field(h, 'H') + (Field(m, 'M') + SecondsField(s, f))
  }

  function Tail(time: string): string {
    if time == "" then "" else "T" + time
  }

  function Written(d: string, h: string, m: string, s: string, f: string): string {
    "P" + (Field(d, 'D') + Tail(TimeFields(h, m, s, f)))
  }

  lemma TakeWritten(digits: string, letter: char, rest: string)
    requires IsNumeral(digits, 10) && ValueOf(letter) >= 10 && NoField(rest, letter)
    ensures TakeField(Field(digits, letter) + rest, letter) == Taken(Value(digits, 10), rest)
  {
    if digits == "" {
      assert Field(digits, letter) + rest == rest;
    } else {
      assert Field(digits, letter) + rest == digits + ([letter] + rest);
      DigitPrefixOf(digits, [letter] + rest, 10);
      assert ([letter] + rest)[1..] == rest;
    }
  }

  lemma DigitsNoField(digits: string, other: char, letter: char, rest: string)
    requires IsNumeral(digits, 10) && ValueOf(other) >= 10 && other != letter
    ensures NoField(digits + ([other] + rest), letter)
  {
    DigitPrefixOf(digits, [other] + rest, 10);
  }

  lemma OtherWritten(digits: string, other: char, letter: char, rest: string)
    requires IsNumeral(digits, 10) && ValueOf(other) >= 10 && other != letter && NoField(rest, letter)
    ensures NoField(Field(digits, other) + rest, letter)
  {
    if digits == "" {
      assert Field(digits, other) + rest == rest;
    } else {
      assert Field(digits, other) + rest == digits + ([other] + rest);
      DigitsNoField(digits, other, letter, rest);
    }
  }

  lemma SecondsForms(s: string, f: string)
    ensures s != "" && f != "" ==> SecondsField(s, f) == s + (['.'] + (f + "S"))
    ensures s != "" && f == "" ==> SecondsField(s, f) == s + (['S'] + "")
  {
  }

  // Digits followed by '.' or 'S': the seconds are no hour or minute field.
  lemma SecondsNoField(s: string, f: string, letter: char)
    requires IsNumeral(s, 10) && (letter == 'H' || letter == 'M')
    ensures NoField(SecondsField(s, f), letter)
  {
    if s != "" {
      SecondsForms(s, f);
      DigitsNoField(s, '.', letter, f + "S");
      DigitsNoField(s, 'S', letter, "");
    }
  }

  lemma TakeFractionTail(fraction: string)
    requires IsNumeral(fraction, 10) && fraction != ""
    ensures TakeTail(['.'] + (fraction + "S")) == Some(Taken(RoundedMillis(fraction), ""))
  {
    var s := ['.'] + (fraction + "S");
    assert s[1..] == fraction + "S";
    DigitPrefixOf(fraction, "S", 10);
    assert s[2 + |fraction|..] == "";
  }

  lemma TakeDigits(digits: string, rest: string)
    requires IsNumeral(digits, 10) && digits != "" && rest != "" && ValueOf(rest[0]) >= 10 && TakeTail(rest).Some?
    ensures TakeSeconds(digits + rest)
        == Taken(1000 * Value(digits, 10) + TakeTail(rest).value.number, TakeTail(rest).value.rest)
  {
    DigitPrefixOf(digits, rest, 10);
  }

  // The milliseconds of a seconds field.
  function SecondsMillis(s: string, f: string): nat {
    1000 * Value(s, 10) + (if f == "" then 0 else RoundedMillis(f))
  }

  lemma TakeSecondsField(s: string, f: string)
    requires IsNumeral(s, 10) && IsNumeral(f, 10) && (s == "" ==> f == "")
    ensures TakeSeconds(SecondsField(s, f)) == Taken(SecondsMillis(s, f), "")
  {
    SecondsForms(s, f);
    if f != "" {
      TakeFractionTail(f);
      TakeDigits(s, ['.'] + (f + "S"));
    } else if s != "" {
      assert ['S'] + "" == "S";
      TakeDigits(s, "S");
    }
  }

  lemma ParseTimeText(time: string, h: string, m: string, s: string, f: string)
    requires IsNumeral(h, 10) && IsNumeral(m, 10) && IsNumeral(s, 10) && IsNumeral(f, 10) && (s == "" ==> f == "")
    requires time == TimeFields(h, m, s, f)
    ensures ParseTimeFields(time).Some?
        && ParseTimeFields(time).value
           == Value(h, 10) * 3600000 + Value(m, 10) * 60000 + SecondsMillis(s, f)
  {
    var seconds := SecondsField(s, f);
    var rest := Field(m, 'M') + seconds;
    assert TakeField(time, 'H') == Taken(Value(h, 10), rest) by {
      SecondsNoField(s, f, 'H');
      OtherWritten(m, 'M', 'H', seconds);
      TakeWritten(h, 'H', rest);
    }
    assert TakeField(rest, 'M') == Taken(Value(m, 10), seconds) by {
      SecondsNoField(s, f, 'M');
      TakeWritten(m, 'M', seconds);
    }
    assert TakeSeconds(seconds) == Taken(SecondsMillis(s, f), "") by {
      TakeSecondsField(s, f);
    }
    CombineFields(time, rest, seconds, Value(h, 10), Value(m, 10), SecondsMillis(s, f));
  }

  lemma CombineFields(s: string, rest1: string, rest2: string, hours: nat, minutes: nat, millis: nat)
    requires TakeField(s, 'H') == Taken(hours, rest1) && TakeField(rest1, 'M') == Taken(minutes, rest2)
        && TakeSeconds(rest2) == Taken(millis, "")
    ensures ParseTimeFields(s).Some? && ParseTimeFields(s).value == hours * 3600000 + minutes * 60000 + millis
  {
  }

  lemma CombineDays(v: string, rest: string, days: nat, ms: nat)
    requires v != "" && v[0] == 'P' && v != "P" && v != "PT" && TakeField(v[1..], 'D') == Taken(days, rest)
    requires rest == "" ==> ms == 0
    requires rest != "" ==> rest[0] == 'T' && ParseTimeFields(rest[1..]).Some? && ParseTimeFields(rest[1..]).value == ms
    ensures ParseDesignators(v).Some? && ParseDesignators(v).value == days * 86400000 + ms
  {
  }

  lemma ParseDays(d: string, time: string, ms: nat)
    requires IsNumeral(d, 10) && (time == "" ==> d != "" && ms == 0) && |time| != 1
    requires time != "" ==> ParseTimeFields(time).Some? && ParseTimeFields(time).value == ms
    ensures var v := "P" + (Field(d, 'D') + Tail(time));
      ParseDesignators(v).Some? && ParseDesignators(v).value == Value(d, 10) * 86400000 + ms
  {
    var body := Field(d, 'D') + Tail(time);
    var v := "P" + body;
    assert |body| >= 2 && v[1..] == body;
    assert time != "" ==> Tail(time)[1..] == time;
    TakeWritten(d, 'D', Tail(time));
    CombineDays(v, Tail(time), Value(d, 10), ms);
  }

  lemma TimeFieldsLength(h: string, m: string, s: string, f: string)
    ensures TimeFields(h, m, s, f) == "" <==> h == "" && m == "" && s == ""
    ensures TimeFields(h, m, s, f) != "" ==> |TimeFields(h, m, s, f)| >= 2
  {
  }

  /** Every designator text is parsed to the milliseconds its fields stand for, with any number of
      digits in each, leading zeros included, and any number of decimal places. */
  lemma ParseWritten(d: string, h: string, m: string, s: string, f: string)
    requires IsNumeral(d, 10) && IsNumeral(h, 10) && IsNumeral(m, 10) && IsNumeral(s, 10) && IsNumeral(f, 10)
    requires (s == "" ==> f == "") && !(d == "" && h == "" && m == "" && s == "")
    ensures var parsed := ParseDesignators(Written(d, h, m, s, f));
      && parsed.Some?
      && parsed.value == Value(d, 10) * 86400000
           + (Value(h, 10) * 3600000 + Value(m, 10) * 60000 + SecondsMillis(s, f))
  {
    var time := TimeFields(h, m, s, f);
    ParseTimeText(time, h, m, s, f);
    TimeFieldsLength(h, m, s, f);
    ParseDays(d, time, Value(h, 10) * 3600000 + Value(m, 10) * 60000 + SecondsMillis(s, f));
  }

  // The nearest whole number to n / m, halves upwards.
  function Nearest(n: nat, m: nat): nat
    requires m > 0
  {
    (2 * n + m) / (2 * m)
  }

  /** Decimal places count as the fraction of a second they stand for, rounded to the nearest
      millisecond, halves upwards. */
  lemma FractionRounded(f: string)
    requires IsNumeral(f, 10) && f != ""
    ensures Pow(10, |f|) > 0 && RoundedMillis(f) == Nearest(1000 * Value(f, 10), Pow(10, |f|))
  {
    PowPositive(10, |f|);
    if |f| <= 3 {
      ShortFraction(f);
    } else {
      LongFraction(f);
    }
  }

  lemma ShortFraction(f: string)
    requires 1 <= |f| <= 3
    ensures Pow(10, |f|) > 0 && Millis(f) == Nearest(1000 * Value(f, 10), Pow(10, |f|))
  {
    MillisValue(f);
    ThreePlaces(|f|);
    NearestExact(Value(f, 10), Pow(10, 3 - |f|), Pow(10, |f|));
  }

  lemma ThreePlaces(k: nat)
    requires 1 <= k <= 3
    ensures Pow(10, k) > 0 && Pow(10, 3 - k) * Pow(10, k) == 1000
  {
    assert Pow(10, 0) == 1 && Pow(10, 1) == 10 && Pow(10, 2) == 100 && Pow(10, 3) == 1000;
  }

  lemma NearestExact(v: nat, q: nat, p: nat)
    requires p > 0 && q * p == 1000
    ensures Nearest(1000 * v, p) == v * q
  {
    Product(v, q, p);
    DivModUnique(v * q, p, 2 * p);
  }

  lemma Product(v: nat, q: nat, p: nat)
    requires q * p == 1000
    ensures 2 * (1000 * v) + p == v * q * (2 * p) + p
  {
    assert v * q * (2 * p) == 2 * v * (q * p);
  }

  lemma LongFraction(f: string)
    requires IsNumeral(f, 10) && |f| > 3
    ensures Pow(10, |f|) > 0 && RoundedMillis(f) == Nearest(1000 * Value(f, 10), Pow(10, |f|))
  {
    var k := |f| - 4;
    var front, d, rest := f[..3], f[3], f[4..];
    FractionParts(f);
    ValueBelowPow(rest, 10);
    PowFour(k);
    PowPositive(10, |f|);
    RoundUp(Value(front, 10), ValueOf(d), Value(rest, 10), Pow(10, k));
  }

  lemma FractionParts(f: string)
    requires |f| > 3
    ensures Value(f, 10)
         == Value(f[..3], 10) * Pow(10, |f| - 3) + (ValueOf(f[3]) * Pow(10, |f| - 4) + Value(f[4..], 10))
  {
    var front, d, rest := f[..3], f[3], f[4..];
    assert f == front + ([d] + rest);
    ValueConcat(front, [d] + rest, 10);
    ValueConcat([d], rest, 10);
    ValueDigit(d, 10);
  }

  lemma PowFour(k: nat)
    ensures Pow(10, k + 1) == 10 * Pow(10, k) && Pow(10, k + 4) == 10000 * Pow(10, k)
  {
    assert Pow(10, k + 4) == 10 * Pow(10, k + 3) == 100 * Pow(10, k + 2) == 1000 * Pow(10, k + 1);
  }

  lemma RoundUp(v: nat, d: nat, w: nat, p: nat)
    requires d <= 9 && w < p
    ensures Nearest(1000 * (v * (10 * p) + (d * p + w)), 10000 * p) == v + (if d >= 5 then 1 else 0)
  {
    RoundParts(v, d, w, p);
    if d >= 5 {
      RestBelow(d - 5, w, p);
      DivModUnique(v + 1, 2000 * ((d - 5) * p + w), 20000 * p);
    } else {
      RestBelow(d + 5, w, p);
      DivModUnique(v, 2000 * ((d + 5) * p + w), 20000 * p);
    }
  }

  lemma RestBelow(x: nat, w: nat, p: nat)
    requires x <= 9 && w < p
    ensures 2000 * (x * p + w) < 20000 * p
  {
    MulLe(x, 9, p);
  }

  lemma RoundParts(v: nat, d: nat, w: nat, p: nat)
    ensures 2000 * (v * (10 * p) + (d * p + w)) + 10000 * p == v * (20000 * p) + 2000 * ((d + 5) * p + w)
    ensures d >= 5 ==>
      2000 * (v * (10 * p) + (d * p + w)) + 10000 * p == (v + 1) * (20000 * p) + 2000 * ((d - 5) * p + w)
  {
  }

  /** For instance. */
  lemma WrittenExamples()
    ensures ParseDesignators("PT1.5S").Some? && ParseDesignators("PT1.5S").value == 1500
    ensures ParseDesignators("P1DT2H3M").Some? && ParseDesignators("P1DT2H3M").value == 93780000
  {
    HalfSecond();
    DayHoursMinutes();
  }

  lemma HalfSecond()
    ensures ParseDesignators("PT1.5S").Some? && ParseDesignators("PT1.5S").value == 1500
  {
    HalfText();
    OneAndAHalf();
    assert ValueOf('1') == 1 && ValueOf('5') == 5;
    ParseWritten("", "", "", "1", "5");
  }

  lemma HalfText()
    ensures Written("", "", "", "1", "5") == "PT1.5S"
  {
    assert SecondsField("1", "5") == "1.5S";
    assert TimeFields("", "", "1", "5") == "1.5S";
  }

  lemma OneAndAHalf()
    ensures SecondsMillis("1", "5") == 1500
  {
    ValueDigit('1', 10);
    ValueDigit('5', 10);
    MillisValue("5");
    assert Pow(10, 2) == 100;
  }

  lemma DayHoursMinutes()
    ensures ParseDesignators("P1DT2H3M").Some? && ParseDesignators("P1DT2H3M").value == 93780000
  {
    assert Field("1", 'D') == "1D" && Field("2", 'H') == "2H" && Field("3", 'M') == "3M";
    assert TimeFields("2", "3", "", "") == "2H3M";
    assert Written("1", "2", "3", "", "") == "P1DT2H3M";
    ParseWritten("1", "2", "3", "", "");
    ValueDigit('1', 10);
    ValueDigit('2', 10);
    ValueDigit('3', 10);
  }

  // The printed form as a written one.

  function Digits(n: nat): string {
    if n == 0 then "" else Print(n, 10)
  }

  lemma DigitsShape(n: nat)
    ensures IsNumeral(Digits(n), 10) && Value(Digits(n), 10) == n && (Digits(n) == "" <==> n == 0)
  {
    PrintShape(n, 10);
    ValuePrint(n, 10);
  }

  lemma PartWritten(n: nat, letter: char)
    ensures Part(n, letter) == Field(Digits(n), letter)
  {
    PrintShape(n, 10);
  }

  function WholeText(seconds: nat, millis: nat): string {
    if seconds == 0 && millis == 0 then "" else Print(seconds, 10)
  }

  function FractionText(millis: nat): string {
    if millis == 0 then "" else MillisText(millis)
  }

  lemma SecondsShape(seconds: nat, millis: nat)
    requires millis <= 999
    ensures IsNumeral(WholeText(seconds, millis), 10) && Value(WholeText(seconds, millis), 10) == seconds
    ensures WholeText(seconds, millis) == "" <==> seconds == 0 && millis == 0
    ensures IsNumeral(FractionText(millis), 10) && (FractionText(millis) == "" <==> millis == 0)
    ensures SecondsMillis(WholeText(seconds, millis), FractionText(millis)) == 1000 * seconds + millis
  {
    PrintShape(seconds, 10);
    ValuePrint(seconds, 10);
    MillisShape(millis);
  }

  lemma MillisShape(millis: nat)
    requires millis <= 999
    ensures |MillisText(millis)| == 3 && IsNumeral(MillisText(millis), 10)
    ensures RoundedMillis(MillisText(millis)) == millis
  {
    assert Pow(10, 3) == 1000;
    PaddedRoundTrip(millis, 10, 3);
    assert MillisText(millis) + Zeros(0) == MillisText(millis);
  }

  lemma SecondsWritten(seconds: nat, millis: nat)
    requires millis <= 999
    ensures SecondsPart(seconds, millis) == SecondsField(WholeText(seconds, millis), FractionText(millis))
  {
    MillisShape(millis);
    PrintShape(seconds, 10);
    OneFraction(Print(seconds, 10), MillisText(millis));
    assert seconds == 0 ==> Print(seconds, 10) == "0";
  }

  lemma OneFraction(s: string, f: string)
    requires s != "" && f != ""
    ensures SecondsField(s, f) == s + "." + f + "S"
    ensures SecondsField(s, "") == s + "S"
    ensures s == "0" ==> SecondsField(s, f) == "0." + f + "S"
  {
    assert s + ("." + f) == s + "." + f;
    assert s + "" == s;
    assert "0" + "." == "0.";
  }

  lemma TimeWritten(hours: nat, minutes: nat, seconds: nat, millis: nat)
    requires millis <= 999
    ensures TimePart(hours, minutes, seconds, millis)
         == TimeFields(Digits(hours), Digits(minutes), WholeText(seconds, millis), FractionText(millis))
  {
    PartWritten(hours, 'H');
    PartWritten(minutes, 'M');
    SecondsWritten(seconds, millis);
    var h, m, s := Part(hours, 'H'), Part(minutes, 'M'), SecondsPart(seconds, millis);
    assert h + m + s == h + (m + s);
  }

  lemma AssembledWritten(days: nat, hours: nat, minutes: nat, seconds: nat, millis: nat)
    requires millis <= 999 && days + hours + minutes + seconds + millis > 0
    ensures Assemble(days, TimePart(hours, minutes, seconds, millis))
         == Written(Digits(days), Digits(hours), Digits(minutes), WholeText(seconds, millis), FractionText(millis))
  {
    TimeWritten(hours, minutes, seconds, millis);
    PartWritten(days, 'D');
    SecondsShape(seconds, millis);
    DigitsShape(days);
    DigitsShape(hours);
    DigitsShape(minutes);
    TimeFieldsLength(Digits(hours), Digits(minutes), WholeText(seconds, millis), FractionText(millis));
    AssembleTail(days, TimePart(hours, minutes, seconds, millis));
  }

  lemma AssembleTail(days: nat, time: string)
    requires days > 0 || time != ""
    ensures Assemble(days, time) == "P" + (Part(days, 'D') + Tail(time))
  {
    PrintShape(days, 10);
    var body := Part(days, 'D') + Tail(time);
    assert |body| > 0 && "P" + Part(days, 'D') + Tail(time) == "P" + body;
    assert ("P" + body)[1..] == body;
  }

  lemma ParseAssembled(days: nat, hours: nat, minutes: nat, seconds: nat, millis: nat)
    requires millis <= 999
    ensures var parsed := ParseDesignators(Assemble(days, TimePart(hours, minutes, seconds, millis)));
      parsed.Some? && parsed.value == days * 86400000 + (hours * 3600000 + minutes * 60000 + (1000 * seconds + millis))
  {
    if days + hours + minutes + seconds + millis > 0 {
      AssembledWritten(days, hours, minutes, seconds, millis);
      SecondsShape(seconds, millis);
      DigitsShape(days);
      DigitsShape(hours);
      DigitsShape(minutes);
      ParseWritten(Digits(days), Digits(hours), Digits(minutes), WholeText(seconds, millis), FractionText(millis));
    } else {
      ParseZero();
    }
  }

  lemma ParseZero()
    ensures ParseDesignators("PT0S").Some? && ParseDesignators("PT0S").value == 0
  {
    assert Written("", "", "", "0", "") == "PT0S";
    ParseWritten("", "", "", "0", "");
    ValueDigit('0', 10);
  }

  lemma TimeLength(hours: nat, minutes: nat, seconds: nat, millis: nat)
    ensures TimePart(hours, minutes, seconds, millis) == "" <==> hours == minutes == seconds == millis == 0
    ensures TimePart(hours, minutes, seconds, millis) != "" ==> |TimePart(hours, minutes, seconds, millis)| >= 2
  {
    PrintShape(hours, 10);
    PrintShape(minutes, 10);
    PrintShape(seconds, 10);
  }

  // The fields of a number of milliseconds, as the printer computes them.
  datatype Breakdown = Breakdown(days: nat, hours: nat, minutes: nat, seconds: nat, millis: nat)

  function BreakdownOf(ms: nat): Breakdown {
    Breakdown(ms / 86400000, ms % 86400000 / 3600000, ms % 3600000 / 60000, ms % 60000 / 1000, ms % 1000)
  }

  lemma BreakdownSum(ms: nat)
    ensures var x := BreakdownOf(ms);
      && x.hours <= 23 && x.minutes <= 59 && x.seconds <= 59 && x.millis <= 999
      && x.days * 86400000 + (x.hours * 3600000 + x.minutes * 60000 + (1000 * x.seconds + x.millis)) == ms
  {
    var x := BreakdownOf(ms);
    DivMod(ms, 86400000);
    Nested(ms, 86400000, 3600000, 24);
    Nested(ms, 3600000, 60000, 60);
    Nested(ms, 60000, 1000, 60);
  }

  lemma NestedMod(q: nat, p: nat, rest: nat, small: nat, ratio: nat)
    requires small > 0 && rest < small && p < ratio
    ensures ((q * ratio + p) * small + rest) % small == rest
  {
    DivModUnique(q * ratio + p, rest, small);
  }

  lemma DivBelow(r: nat, small: nat, ratio: nat)
    requires small > 0 && r < ratio * small
    ensures r / small < ratio && r == r / small * small + r % small
  {
    DivMod(r, small);
    if r / small >= ratio {
      MulLe(ratio, r / small, small);
    }
  }

  lemma Nested(ms: nat, big: nat, small: nat, ratio: nat)
    requires small > 0 && big == ratio * small && big > 0
    ensures ms % big / small < ratio && ms % big == ms % big / small * small + ms % small
  {
    DivMod(ms, big);
    var q: nat, r: nat := ms / big, ms % big;
    DivBelow(r, small, ratio);
    var p: nat, rest: nat := r / small, r % small;
    NestedMod(q, p, rest, small, ratio);
    assert (q * ratio + p) * small + rest == q * (ratio * small) + r;
  }

  /** The printed designator form of any number of milliseconds is parsed back to that number. */
  lemma ParseDesignated(ms: nat)
    ensures ParseDesignators(Designators(ms)) == Some(ms)
  {
    BreakdownSum(ms);
    var x := BreakdownOf(ms);
    DesignatorFields(ms);
    ParseAssembled(x.days, x.hours, x.minutes, x.seconds, x.millis);
    assert ParseDesignators(Designators(ms)).value == ms;
  }

  lemma BreakdownUnique(d: nat, h: nat, m: nat, s: nat, f: nat)
    requires h <= 23 && m <= 59 && s <= 59 && f <= 999
    ensures BreakdownOf(d * 86400000 + (h * 3600000 + (m * 60000 + (s * 1000 + f)))) == Breakdown(d, h, m, s, f)
  {
    var f1 := s * 1000 + f;
    var f2 := m * 60000 + f1;
    var f3 := h * 3600000 + f2;
    DivModUnique(d, f3, 86400000);
    DivModUnique(h, f2, 3600000);
    DivModUnique(d * 24 + h, f2, 3600000);
    DivModUnique(m, f1, 60000);
    DivModUnique((d * 24 + h) * 60 + m, f1, 60000);
    DivModUnique(s, f, 1000);
    DivModUnique(((d * 24 + h) * 60 + m) * 60 + s, f, 1000);
  }

  // The text of a number, or nothing for zero.
  ghost predicate Shows(text: string, n: nat) {
    text == if n == 0 then "" else Print(n, 10)
  }

  /** What is printed: each field that is not zero in decimal with its letter, the milliseconds as
      three decimal places of the seconds, and "PT0S" for nothing at all. */
  lemma DesignatorForm(x: Breakdown, d: string, h: string, m: string, s: string, f: string)
    requires x.hours <= 23 && x.minutes <= 59 && x.seconds <= 59 && x.millis <= 999
    requires Shows(d, x.days) && Shows(h, x.hours) && Shows(m, x.minutes)
    requires s == if x.seconds == 0 && x.millis == 0 then "" else Print(x.seconds, 10)
    requires f == if x.millis == 0 then "" else PadStart(Print(x.millis, 10), 3)
    ensures var ms := x.days * 86400000 + (x.hours * 3600000 + (x.minutes * 60000 + (x.seconds * 1000 + x.millis)));
      Designators(ms) == if ms == 0 then "PT0S" else Written(d, h, m, s, f)
  {
    FormOfFields(x.days, x.hours, x.minutes, x.seconds, x.millis);
    if x.days + x.hours + x.minutes + x.seconds + x.millis > 0 {
      AssembledWritten(x.days, x.hours, x.minutes, x.seconds, x.millis);
      assert d == Digits(x.days) && h == Digits(x.hours) && m == Digits(x.minutes);
      assert s == WholeText(x.seconds, x.millis) && f == FractionText(x.millis);
    } else {
      AllZero(x);
    }
  }

  lemma AllZero(x: Breakdown)
    requires x == Breakdown(0, 0, 0, 0, 0)
    ensures Assemble(x.days, TimePart(x.hours, x.minutes, x.seconds, x.millis)) == "PT0S"
  {
  }

  lemma FormOfFields(d: nat, h: nat, m: nat, s: nat, f: nat)
    requires h <= 23 && m <= 59 && s <= 59 && f <= 999
    ensures Designators(d * 86400000 + (h * 3600000 + (m * 60000 + (s * 1000 + f))))
         == Assemble(d, TimePart(h, m, s, f))
  {
    BreakdownUnique(d, h, m, s, f);
    DesignatorFields(d * 86400000 + (h * 3600000 + (m * 60000 + (s * 1000 + f))));
  }

  // Floating point, as far as the parser uses it: y is x rounded with a relative error of at most
  // 2^-53, which rounding to the nearest double has here.
  ghost predicate RoundedTo(x: real, y: real) {
    x - x / 9007199254740992.0 <= y <= x + x / 9007199254740992.0
  }

  // What the parser computes from whole seconds and the text of `frac` further milliseconds:
  // a is parseFloat of that text, b the sum, c the product with 1000.
  ghost predicate InDoubles(whole: nat, frac: nat, a: real, b: real, c: real) {
    RoundedTo(frac as real / 1000.0, a) && RoundedTo(whole as real + a, b) && RoundedTo(b * 1000.0, c)
  }

  // Math.round
  function Round(x: real): int {
    (x + 0.5).Floor
  }

  /** The exact arithmetic of `ParseDesignators` is what the code computes in doubles, as long as
      the duration is at most 2^50 milliseconds, which is more than 35000 years. */
  lemma FloatExact(whole: nat, frac: nat, a: real, b: real, c: real)
    requires InDoubles(whole, frac, a, b, c) && whole * 1000 + frac <= 1125899906842624
    ensures Round(c) == whole * 1000 + frac
  {
    var f: real := frac as real / 1000.0;
    var ms := whole * 1000 + frac;
    assert (whole as real + f) * 1000.0 == ms as real;
    assert (ms as real) - 0.5 < c < (ms as real) + 0.5;
  }

  /** So every duration up to 2^50 milliseconds is parsed back exactly from its printed fields in
      doubles too. */
  lemma FloatDesignated(ms: nat, a: real, b: real, c: real)
    requires ms <= 1125899906842624
    requires var x := BreakdownOf(ms);
      InDoubles(x.days * 86400 + x.hours * 3600 + x.minutes * 60, 1000 * x.seconds + x.millis, a, b, c)
    ensures Round(c) == ms
  {
    BreakdownSum(ms);
    var x := BreakdownOf(ms);
    FloatExact(x.days * 86400 + x.hours * 3600 + x.minutes * 60, 1000 * x.seconds + x.millis, a, b, c);
  }

  lemma DesignatorFields(ms: nat)
    ensures var x := BreakdownOf(ms);
      Designators(ms) == Assemble(x.days, TimePart(x.hours, x.minutes, x.seconds, x.millis))
  {
  }

  // A stored text that starts with 'P' is never the designator form of its own value.

  lemma Parity(s: string)
    requires s != "" && IsNumeral(s, 62)
    ensures Value(s, 62) % 2 == ValueOf(s[|s| - 1]) % 2
  {
    ValueSplit(s, 62);
  }

  lemma PValue(s: string)
    requires |s| >= 1 && s[0] == 'P' && IsNumeral(s, 62)
    ensures Value(s, 62) >= 51 * Pow(62, |s| - 1)
  {
    ValueBounds(s, 62);
  }

  lemma {:induction false} PowBases(k: nat)
    ensures Pow(10, k) <= Pow(62, k)
  {
    if k > 0 {
      PowBases(k - 1);
    }
  }

  lemma FourMore(k: nat)
    ensures Pow(62, k + 4) == 14776336 * Pow(62, k)
  {
    assert Pow(62, k + 4) == 62 * Pow(62, k + 3);
    assert Pow(62, k + 3) == 62 * Pow(62, k + 2);
    assert Pow(62, k + 2) == 62 * Pow(62, k + 1);
  }

  // With days and a time part the text is too long for its value.
  lemma DaysAndTimeTooLong(days: nat, time: string)
    requires days >= 1 && |time| >= 2
    ensures var s := "P" + Part(days, 'D') + ("T" + time);
      IsNumeral(s, 62) ==> Value(s, 62) >= (days + 1) * 86400000
  {
    var s, k := "P" + Part(days, 'D') + ("T" + time), |Print(days, 10)|;
    if IsNumeral(s, 62) {
      PValue(s);
      PrintLength(days, 10, k);
      PowMono(62, k + 4, |s| - 1);
      FourMore(k);
      PowBases(k);
    }
  }

  // Without days it is too long, or it is a number of hours: an odd text for an even number.
  lemma TimeOnlyDiffers(h: nat, m: nat, s: nat, f: nat)
    requires h <= 23 && m <= 59 && s <= 59 && f <= 999 && h + m + s + f > 0
    ensures var t := "PT" + TimePart(h, m, s, f);
      IsNumeral(t, 62) ==> Value(t, 62) != h * 3600000 + m * 60000 + s * 1000 + f
  {
    var time := TimePart(h, m, s, f);
    TimeLength(h, m, s, f);
    if IsNumeral("PT" + time, 62) {
      LongEnough(time);
      if h > 0 && |time| == 2 {
        ShortTime(h, m, s, f);
        Parity("PT" + time);
      }
    }
  }

  lemma PAtLeast(s: string, k: nat)
    requires |s| > k && s[0] == 'P' && IsNumeral(s, 62)
    ensures Value(s, 62) >= 51 * Pow(62, k)
  {
    PValue(s);
    PowMono(62, k, |s| - 1);
  }

  lemma LongEnough(time: string)
    requires |time| >= 2 && IsNumeral("PT" + time, 62)
    ensures Value("PT" + time, 62) >= 12154728
    ensures |time| >= 3 ==> Value("PT" + time, 62) >= 753593136
  {
    PAtLeast("PT" + time, 3);
    if |time| >= 3 {
      PAtLeast("PT" + time, 4);
    }
    SmallPowers();
  }

  lemma SmallPowers()
    ensures Pow(62, 3) == 238328 && Pow(62, 4) == 14776336
  {
  }

  lemma ShortTime(h: nat, m: nat, s: nat, f: nat)
    requires h > 0 && |TimePart(h, m, s, f)| == 2
    ensures m == 0 && s == 0 && f == 0 && TimePart(h, m, s, f)[1] == 'H'
  {
    PrintShape(h, 10);
    PrintShape(m, 10);
    PrintShape(s, 10);
  }

  lemma NeverItsOwnForm(ms: nat)
    ensures Print(ms, 62) != Designators(ms)
  {
    var x := BreakdownOf(ms);
    BreakdownSum(ms);
    DesignatorFields(ms);
    PrintShape(ms, 62);
    ValuePrint(ms, 62);
    if ms > 0 {
      FormDiffers(x);
    }
  }

  // The text of the fields, read as a base-62 number, is not the number the fields stand for.
  lemma FormDiffers(x: Breakdown)
    requires x.hours <= 23 && x.minutes <= 59 && x.seconds <= 59 && x.millis <= 999
    requires x.days > 0 || x.hours > 0 || x.minutes > 0 || x.seconds > 0 || x.millis > 0
    ensures var t := Assemble(x.days, TimePart(x.hours, x.minutes, x.seconds, x.millis));
      var ms := x.days * 86400000 + (x.hours * 3600000 + x.minutes * 60000 + (1000 * x.seconds + x.millis));
      IsNumeral(t, 62) ==> Value(t, 62) != ms
  {
    var time := TimePart(x.hours, x.minutes, x.seconds, x.millis);
    TimeLength(x.hours, x.minutes, x.seconds, x.millis);
    if x.days == 0 {
      TimeOnlyDiffers(x.hours, x.minutes, x.seconds, x.millis);
      AssembleTexts(x.days, time);
    } else if time == "" {
      WholeDaysOdd(x.days);
    } else {
      DaysAndTimeTooLong(x.days, time);
      AssembleTexts(x.days, time);
    }
  }

  lemma AssembleTexts(days: nat, time: string)
    requires time != ""
    ensures Assemble(days, time) == "P" + Part(days, 'D') + ("T" + time)
    ensures days == 0 ==> Assemble(days, time) == "PT" + time
  {
    assert |Assemble(days, time)| > 1;
  }

  lemma WholeDaysOdd(days: nat)
    requires days >= 1
    ensures var t := Assemble(days, ""); IsNumeral(t, 62) ==> Value(t, 62) % 2 == 1
  {
    var t := Assemble(days, "");
    assert t == "P" + Print(days, 10) + "D";
    if IsNumeral(t, 62) {
      Parity(t);
    }
  }

  // Whether ms lies in [51 * 62^k, 52 * 62^k) for some k: its stored text starts with 'P'.
  ghost predicate InPBand(ms: nat) {
    exists k: nat :: InBand(ms, 62, 51, k)
  }

  /** The first such number: 51 milliseconds are stored as "P" and read back as "P". */
  lemma FirstPBand()
    ensures InPBand(51) && EncodeDuration(51) == "P" == DecodeDuration("P")
    ensures forall ms: nat | InPBand(ms) :: ms >= 51
  {
    assert InBand(51, 62, 51, 0) by { assert Pow(62, 0) == 1; }
    forall ms: nat | InPBand(ms)
      ensures ms >= 51
    {
      var k: nat :| InBand(ms, 62, 51, k);
      PowPositive(62, k);
    }
  }

  /** A stored duration is read back in designator form exactly when it lies outside every
      interval [51 * 62^k, 52 * 62^k); inside, the reader takes the base-62 text for a
      designator form and returns it as it is. */
  lemma DurationRoundTrip(ms: nat)
    ensures DecodeDuration(EncodeDuration(ms)) == Designators(ms) <==> !InPBand(ms)
    ensures InPBand(ms) ==> DecodeDuration(EncodeDuration(ms)) == EncodeDuration(ms)
  {
    PrintShape(ms, 62);
    ReadPrint(ms, 62);
    LeadingDigit(ms, 62, 51);
    NeverItsOwnForm(ms);
    assert DigitChar(51) == 'P';
  }

  /** Outside those intervals, storing, reading and validating again gives the number back. */
  lemma DurationStable(ms: nat)
    requires !InPBand(ms)
    ensures ParseDesignators(DecodeDuration(EncodeDuration(ms))) == Some(ms)
  {
    DurationRoundTrip(ms);
    ParseDesignated(ms);
  }
}

/** Fields stored as one packed number: semantic versions, telephone numbers and times of day
    (src/schema.class.ts), with their validators (src/validator.class.ts). */
module PackedFields {
  import opened Options
  import opened Numerals
  import opened Texts

  // JavaScript's remainder takes the sign of the dividend.
  function JsRem(z: int, m: nat): int
    requires m > 0
  {
    if z >= 0 then z % m else 0 - (0 - z) % m
  }

  // Semantic versions (items 2 and 11 of Semantic Versioning 2.0.0).

  datatype Version = Version(major: nat, minor: nat, patch: nat)

  predicate IsDigits(s: string) {
    s != "" && IsNumeral(s, 10)
  }

  function ParseVersion(v: string): Option<Version> {
    var parts := Split(v, '.');
    if |parts| == 3 && IsDigits(parts[0]) && IsDigits(parts[1]) && IsDigits(parts[2])
    then Some(Version(Value(parts[0], 10), Value(parts[1], 10), Value(parts[2], 10)))
    else None
  }

  function FormatVersion(x: Version): string {
    Join([Print(x.major, 10), Print(x.minor, 10), Print(x.patch, 10)], '.')
  }

  function ValidateSemver(v: string): Option<string> {
    var cleaned := if v != "" && v[0] == 'v' then v[1..] else v;
    match ParseVersion(cleaned)
    case Some(x) => Some(FormatVersion(x))
    case None => None
  }

  function Packed(x: Version): nat {
    x.major * 1000000 + x.minor * 1000 + x.patch
  }

  function EncodeSemver(v: string): string {
    match ParseVersion(v)
    case Some(x) => Print(Packed(x), 62)
    case None => v
  }

  function DecodeSemver(s: string): string {
    if s != "" && '.' !in s then
      match Read(s, 62)
      case None => "NaN.NaN.NaN"
      case Some(packed) =>
        Join([PrintInt(packed / 1000000, 10), PrintInt(JsRem(packed, 1000000) / 1000, 10),
            PrintInt(JsRem(packed, 1000), 10)], '.')
    else s
  }

  lemma DigitsText(n: nat)
    ensures IsDigits(Print(n, 10)) && Value(Print(n, 10), 10) == n && '.' !in Print(n, 10)
  {
    PrintShape(n, 10);
    ValuePrint(n, 10);
    NumeralLacks(Print(n, 10), 10, '.');
  }

  lemma ParseFormatVersion(x: Version)
    ensures ParseVersion(FormatVersion(x)) == Some(x)
  {
    DigitsText(x.major);
    DigitsText(x.minor);
    DigitsText(x.patch);
    SplitJoin([Print(x.major, 10), Print(x.minor, 10), Print(x.patch, 10)], '.');
  }

  /** Three decimal numbers with dots between are read as what they stand for, a leading "v" is
      dropped by the validator and leading zeros with it, and they are stored as the one number
      with three decimal places each for the second and the third. */
  lemma VersionText(a: string, b: string, c: string)
    requires IsDigits(a) && IsDigits(b) && IsDigits(c)
    ensures var v := a + "." + b + "." + c;
      && ParseVersion(v) == Some(Version(Value(a, 10), Value(b, 10), Value(c, 10)))
      && EncodeSemver(v) == Print(Value(a, 10) * 1000000 + Value(b, 10) * 1000 + Value(c, 10), 62)
      && ValidateSemver("v" + v) == ValidateSemver(v)
      && ValidateSemver(v)
         == Some(Print(Value(a, 10), 10) + "." + Print(Value(b, 10), 10) + "." + Print(Value(c, 10), 10))
  {
    NumeralLacks(a, 10, '.');
    NumeralLacks(b, 10, '.');
    NumeralLacks(c, 10, '.');
    var v := a + "." + b + "." + c;
    Join3(a, b, c, '.');
    Join3(Print(Value(a, 10), 10), Print(Value(b, 10), 10), Print(Value(c, 10), 10), '.');
    SplitJoin([a, b, c], '.');
    assert ("v" + v)[1..] == v;
    assert v[0] == a[0] && ValueOf(a[0]) < 10;
  }

  // v is written so.
  ghost predicate IsVersionText(v: string, a: string, b: string, c: string) {
    IsDigits(a) && IsDigits(b) && IsDigits(c) && v == a + "." + b + "." + c
  }

  /** No other text is read as a version. */
  lemma VersionOnly(v: string)
    ensures ParseVersion(v).Some? <==> exists a, b, c :: IsVersionText(v, a, b, c)
  {
    if ParseVersion(v).Some? {
      var parts := Split(v, '.');
      JoinSplit(v, '.');
      Join3(parts[0], parts[1], parts[2], '.');
      assert parts == [parts[0], parts[1], parts[2]];
      assert IsVersionText(v, parts[0], parts[1], parts[2]);
    }
    if a, b, c :| IsVersionText(v, a, b, c) {
      VersionText(a, b, c);
    }
  }

  lemma Join3(a: string, b: string, c: string, sep: char)
    ensures Join([a, b, c], sep) == a + [sep] + b + [sep] + c
  {
    assert [a, b, c][1..] == [b, c] && [b, c][1..] == [c];
    assert Join([b, c], sep) == b + [sep] + c;
  }

  // The version the packed number is read as.
  function Unpacked(n: nat): Version {
    Version(n / 1000000, n % 1000000 / 1000, n % 1000)
  }

  lemma DecodePacked(n: nat)
    ensures DecodeSemver(Print(n, 62)) == FormatVersion(Unpacked(n))
  {
    PrintShape(n, 62);
    ReadPrint(n, 62);
    NumeralLacks(Print(n, 62), 62, '.');
  }

  lemma UnpackedExact(x: Version)
    ensures Unpacked(Packed(x)) == x <==> x.minor <= 999 && x.patch <= 999
  {
    if x.minor <= 999 && x.patch <= 999 {
      DivModUnique(x.major, x.minor * 1000 + x.patch, 1000000);
      DivModUnique(x.minor, x.patch, 1000);
      DivModUnique(x.major * 1000 + x.minor, x.patch, 1000);
    }
  }

  lemma JoinHasSeparator(a: string, b: string, c: string, sep: char)
    ensures sep in Join([a, b, c], sep)
  {
    assert [a, b, c][1..] == [b, c];
    assert Join([a, b, c], sep)[|a|] == sep;
  }

  /** A version text comes back unchanged exactly when its three numbers carry no leading zeros
      and minor and patch are at most 999; any other text, exactly when it is empty or has a dot. */
  lemma SemverRoundTrip(v: string)
    ensures DecodeSemver(EncodeSemver(v)) == v <==>
              match ParseVersion(v)
              case Some(x) => v == FormatVersion(x) && x.minor <= 999 && x.patch <= 999
              case None => v == "" || '.' in v
  {
    match ParseVersion(v)
    case Some(x) =>
      DecodePacked(Packed(x));
      UnpackedExact(x);
      ParseFormatVersion(Unpacked(Packed(x)));
    case None =>
      if v != "" && '.' !in v {
        match Read(v, 62)
        case None =>
          assert "NaN.NaN.NaN"[3] == '.';
        case Some(p) =>
          JoinHasSeparator(PrintInt(p / 1000000, 10), PrintInt(JsRem(p, 1000000) / 1000, 10),
              PrintInt(JsRem(p, 1000), 10), '.');
      }
  }

  /** A validated version is canonical, so it comes back exactly when minor and patch are at most 999. */
  lemma SemverValidated(v: string)
    requires ValidateSemver(v).Some?
    ensures var c := ValidateSemver(v).value;
      && ValidateSemver(c) == Some(c)
      && ParseVersion(c).Some?
      && (DecodeSemver(EncodeSemver(c)) == c
          <==> ParseVersion(c).value.minor <= 999 && ParseVersion(c).value.patch <= 999)
  {
    var c := ValidateSemver(v).value;
    var x :| c == FormatVersion(x);
    ParseFormatVersion(x);
    DigitsText(x.major);
    assert c[0] == Print(x.major, 10)[0] != 'v';
    SemverRoundTrip(c);
  }

  // Precedence: major, then minor, then patch, compared as numbers.
  predicate Precedes(x: Version, y: Version) {
    || x.major < y.major
    || (x.major == y.major && x.minor < y.minor)
    || (x.major == y.major && x.minor == y.minor && x.patch < y.patch)
  }

  /** Among versions whose minor and patch are at most 999, the order of the packed numbers is
      the precedence order, and different versions have different numbers. */
  lemma PackedOrder(x: Version, y: Version)
    requires x.minor <= 999 && x.patch <= 999 && y.minor <= 999 && y.patch <= 999
    ensures Packed(x) < Packed(y) <==> Precedes(x, y)
    ensures Packed(x) == Packed(y) <==> x == y
  {
  }

  /** Beyond that the order breaks: a patch of 1000 is packed like the next minor version. */
  lemma PackedCarries(x: Version)
    ensures Packed(x.(minor := x.minor + 1)) == Packed(x.(patch := x.patch + 1000))
    ensures Precedes(x.(patch := x.patch + 1000), x.(minor := x.minor + 1))
  {
  }

  // Telephone numbers.

  // What /[\s\-\(\)\.]/ removes.
  const PHONE_NOISE: set<char> := WHITESPACE + {'-', '(', ')', '.'}

  function ValidatePhone(v: string): Option<string> {
    var digits := Remove(v, PHONE_NOISE);
    var withPlus := if digits != "" && digits[0] == '+' then digits else "+" + digits;
    if 7 <= |withPlus| - 1 <= 15 && IsNumeral(withPlus[1..], 10) then Some(withPlus) else None
  }

  function EncodePhone(v: string): string {
    if v != "" && v[0] == '+' then EncodeNumber(ParseInt(v[1..], 10)) else v
  }

  function DecodePhone(s: string): string {
    if s != "" && s[0] != '+' then "+" + ToText(Read(s, 62), 10) else s
  }

  // The text of an integer: digits without a leading zero, perhaps after a minus sign.
  ghost predicate IsIntText(t: string) {
    if t != "" && t[0] == '-' then IsCanonical(t[1..], 10) && t != "-0" else IsCanonical(t, 10)
  }

  lemma PrintIntText(z: int)
    ensures IsIntText(PrintInt(z, 10))
  {
    PrintShape(if z < 0 then -z else z, 10);
    assert ValueOf('-') == 62;
    if z < 0 {
      assert PrintInt(z, 10)[1..] == Print(-z, 10);
      assert "-0"[1..][0] == '0';
    }
  }

  lemma IntTextParses(t: string)
    requires IsIntText(t)
    ensures ParseInt(t, 10).Some? && PrintInt(ParseInt(t, 10).value, 10) == t
  {
    if t[0] == '-' {
      var digits := t[1..];
      assert t == "-" + digits;
      ParseNegative(digits, 10);
      PrintOfCanonical(digits, 10);
      PrintShape(Value(digits, 10), 10);
      assert digits[0] == '0' ==> digits == "0";
    } else {
      ParseNumeral(t, 10);
      PrintOfCanonical(t, 10);
    }
  }

  lemma NumberTextStart(n: Option<int>)
    ensures EncodeNumber(n) != "" && EncodeNumber(n)[0] != '+' && Read(EncodeNumber(n), 62).Some?
    ensures n.Some? ==> Read(EncodeNumber(n), 62) == n
  {
    assert ValueOf('+') == 62;
    match n
    case None =>
      assert IsNumeral("undefined", 62);
    case Some(z) =>
      PrintShape(if z < 0 then -z else z, 62);
      ReadPrint(z, 62);
  }

  /** A text with a plus sign comes back unchanged exactly when what follows the sign is an
      integer without leading zeros; what has no plus sign is never left alone, unless empty. */
  lemma PhoneRoundTrip(v: string)
    ensures DecodePhone(EncodePhone(v)) == v <==> v == "" || (v[0] == '+' && IsIntText(v[1..]))
  {
    if v != "" && v[0] == '+' {
      var n := ParseInt(v[1..], 10);
      NumberTextStart(n);
      var back := Read(EncodeNumber(n), 62).value;
      PrintIntText(back);
      assert DecodePhone(EncodePhone(v))[1..] == PrintInt(back, 10);
      assert v == "+" + v[1..];
      if IsIntText(v[1..]) {
        IntTextParses(v[1..]);
      }
    }
  }

  lemma PhoneTextClean(c: string)
    requires c != "" && c[0] == '+' && IsNumeral(c[1..], 10)
    ensures Remove(c, PHONE_NOISE) == c
  {
    forall x | x in c
      ensures x !in PHONE_NOISE
    {
      assert x == '+' || '0' <= x <= '9' by {
        var i :| 0 <= i < |c| && c[i] == x;
        assert i > 0 ==> c[1..][i - 1] == x && ValueOf(c[1..][i - 1]) < 10;
      }
    }
    RemoveNothing(c, PHONE_NOISE);
  }

  /** A validated number has 7 to 15 digits, so it comes back exactly when the first is not 0;
      validating it again changes nothing. */
  lemma PhoneValidated(v: string)
    requires ValidatePhone(v).Some?
    ensures var c := ValidatePhone(v).value;
      && ValidatePhone(c) == Some(c)
      && |c| >= 8 && c[0] == '+' && IsDigits(c[1..])
      && (DecodePhone(EncodePhone(c)) == c <==> c[1] != '0')
  {
    var c := ValidatePhone(v).value;
    PhoneTextClean(c);
    PhoneRoundTrip(c);
    assert ValueOf('-') == 62 && ValueOf(c[1..][0]) < 10;
  }

  /** A plus sign and digits are stored as the number of the digits. The validator takes 7 to 15
      digits, perhaps after a plus sign, once spaces, dashes, dots and parentheses are gone, and
      leaves a plus sign and those digits. */
  lemma PhoneMeaning(v: string)
    ensures v != "" && v[0] == '+' && IsDigits(v[1..]) ==> EncodePhone(v) == Print(Value(v[1..], 10), 62)
    ensures var rest := Remove(v, WHITESPACE + {'-', '(', ')', '.'});
      var digits := if rest != "" && rest[0] == '+' then rest[1..] else rest;
      ValidatePhone(v).Some? <==> 7 <= |digits| <= 15 && IsNumeral(digits, 10)
    ensures ValidatePhone(v).Some? ==>
              && ValidatePhone(v).value != "" && ValidatePhone(v).value[0] == '+'
              && ValidatePhone(v).value[1..] == Remove(v, WHITESPACE + {'-', '(', ')', '.', '+'})
  {
    if v != "" && v[0] == '+' && IsDigits(v[1..]) {
      ParseNumeral(v[1..], 10);
    }
    assert ("+" + Remove(v, PHONE_NOISE))[1..] == Remove(v, PHONE_NOISE);
    if ValidatePhone(v).Some? {
      var c := ValidatePhone(v).value;
      RemoveTwice(v, PHONE_NOISE, '+');
      assert PHONE_NOISE + {'+'} == WHITESPACE + {'-', '(', ')', '.', '+'};
      NumeralLacks(c[1..], 10, '+');
      RemoveNothing(c[1..], {'+'});
      assert c == "+" + c[1..];
      RemoveCons('+', c[1..], {'+'});
      var digits := Remove(v, PHONE_NOISE);
      assert c == digits || c[1..] == digits;
    }
  }

  lemma {:induction false} RemoveTwice(s: string, chars: set<char>, c: char)
    ensures Remove(Remove(s, chars), {c}) == Remove(s, chars + {c})
  {
    if s != "" {
      RemoveTwice(s[1..], chars, c);
      if s[0] !in chars {
        RemoveCons(s[0], Remove(s[1..], chars), {c});
      }
    }
  }

  // Times of day.

  datatype Time = Time(h: nat, m: nat, s: nat, ms: nat)

  predicate IsTwoDigits(t: string) {
    |t| == 2 && IsNumeral(t, 10)
  }

  // parseInt(fraction.padEnd(3, '0'))
  function Millis(fraction: string): nat {
    Value(fraction + Zeros(if |fraction| < 3 then 3 - |fraction| else 0), 10)
  }

  // The match of HH:MM, HH:MM:SS or HH:MM:SS.f, .ff, .fff.
  function ParseTime(v: string): Option<Time> {
    if |v| < 5 || !IsTwoDigits(v[..2]) || v[2] != ':' || !IsTwoDigits(v[3..5]) then None
    else if |v| == 5 then Some(Time(Value(v[..2], 10), Value(v[3..5], 10), 0, 0))
    else if |v| < 8 || v[5] != ':' || !IsTwoDigits(v[6..8]) then None
    else if |v| == 8 then Some(Time(Value(v[..2], 10), Value(v[3..5], 10), Value(v[6..8], 10), 0))
    else if |v| < 10 || |v| > 12 || v[8] != '.' || !IsNumeral(v[9..], 10) then None
    else Some(Time(Value(v[..2], 10), Value(v[3..5], 10), Value(v[6..8], 10), Millis(v[9..])))
  }

  function FormatTime(t: Time): string {
    PadStart(Print(t.h, 10), 2) + ":" + PadStart(Print(t.m, 10), 2) + ":" + PadStart(Print(t.s, 10),
        2) + "." + PadStart(Print(t.ms, 10), 3)
  }

  predicate IsTimeOfDay(t: Time) {
    t.h <= 23 && t.m <= 59 && t.s <= 59 && t.ms <= 999
  }

  function ValidateTime(v: string): Option<string> {
    match ParseTime(v)
    case Some(t) => if IsTimeOfDay(t) then Some(FormatTime(t)) else None
    case None => None
  }

  function TotalMs(t: Time): nat {
    (t.h * 3600 + t.m * 60 + t.s) * 1000 + t.ms
  }

  function EncodeTime(v: string): string {
    match ParseTime(v)
    case Some(t) => Print(TotalMs(t), 62)
    case None => v
  }

  function DecodeTime(s: string): string {
    if s == "" then s
    else
      match Read(s, 62)
      case None => "NaN:NaN:NaN.NaN"
      case Some(total) =>
        var secs := total / 1000;
        var mins := secs / 60;
        PadStart(PrintInt(mins / 60, 10), 2) + ":" + PadStart(PrintInt(JsRem(mins, 60), 10), 2) + ":"
          + PadStart(PrintInt(JsRem(secs, 60), 10), 2) + "." + PadStart(PrintInt(JsRem(total, 1000), 10), 3)
  }

  // One or two digits of a fraction count as hundred or ten milliseconds each.
  lemma MillisValue(f: string)
    requires 1 <= |f| <= 3
    ensures Millis(f) == Value(f, 10) * Pow(10, 3 - |f|)
  {
    var k := 3 - |f|;
    ValueConcat(f, Zeros(k), 10);
    ValueZerosPrefix(k, "", 10);
    assert Zeros(k) + "" == Zeros(k);
  }

  lemma StoredTotal(v: string)
    requires ParseTime(v).Some?
    ensures IsCanonical(EncodeTime(v), 62) && Value(EncodeTime(v), 62) == TotalMs(ParseTime(v).value)
  {
    PrintShape(TotalMs(ParseTime(v).value), 62);
    ValuePrint(TotalMs(ParseTime(v).value), 62);
  }

  // Hours and minutes of two digits each, perhaps seconds, perhaps one to three decimal places.
  ghost predicate IsTimeText(v: string) {
    && |v| >= 5 && IsTwoDigits(v[..2]) && v[2] == ':' && IsTwoDigits(v[3..5])
    && (|v| > 5 ==> |v| >= 8 && v[5] == ':' && IsTwoDigits(v[6..8]))
    && (|v| > 8 ==> 10 <= |v| <= 12 && v[8] == '.' && IsNumeral(v[9..], 10))
  }

  /** Only such a text is read as a time, and taken by the validator up to 23:59:59.999. It is
      stored as the number of milliseconds it stands for. */
  lemma TimeStored(v: string)
    ensures ParseTime(v).Some? <==> IsTimeText(v)
    ensures ValidateTime(v).Some? <==>
        IsTimeText(v) && Value(v[..2], 10) <= 23 && Value(v[3..5], 10) <= 59 && (|v| >= 8 ==> Value(v[6..8], 10) <= 59)
    ensures IsTimeText(v) ==>
      && IsCanonical(EncodeTime(v), 62)
      && Value(EncodeTime(v), 62) == Value(v[..2], 10) * 3600000 + Value(v[3..5], 10) * 60000
              + (if |v| >= 8 then Value(v[6..8], 10) * 1000 else 0)
              + (if |v| >= 10 then Value(v[9..], 10) * Pow(10, 12 - |v|) else 0)
  {
    if IsTimeText(v) {
      StoredTotal(v);
      if |v| >= 10 {
        MillisValue(v[9..]);
        MillisBound(v[9..]);
      }
    }
  }

  // The time a number of milliseconds is read as: hours may exceed 23.
  function TimeOf(total: nat): Time {
    Time(total / 1000 / 60 / 60, total / 1000 / 60 % 60, total / 1000 % 60, total % 1000)
  }

  lemma DecodeTotal(total: nat)
    ensures DecodeTime(Print(total, 62)) == FormatTime(TimeOf(total))
  {
    PrintShape(total, 62);
    ReadPrint(total, 62);
  }

  lemma TwoDigits(t: string)
    requires IsTwoDigits(t)
    ensures Value(t, 10) <= 99 && PadStart(Print(Value(t, 10), 10), 2) == t
  {
    PaddedInverse(t, 10);
    ValueBelowPow(t, 10);
    assert Pow(10, 2) == 100;
  }

  // The four fields of a full time text.
  lemma TimeSlices(h: string, m: string, s: string, ms: string)
    requires |h| == 2 && |m| == 2 && |s| == 2 && |ms| == 3
    ensures var v := h + ":" + m + ":" + s + "." + ms;
      && |v| == 12 && v[..2] == h && v[2] == ':' && v[3..5] == m && v[5] == ':' && v[6..8] == s && v[8] == '.'
          && v[9..] == ms
  {
  }

  lemma FieldText(n: nat, width: nat)
    requires 1 <= width && n < Pow(10, width)
    ensures |PadStart(Print(n, 10), width)| == width && IsNumeral(PadStart(Print(n, 10), width), 10)
    ensures Value(PadStart(Print(n, 10), width), 10) == n
  {
    PaddedRoundTrip(n, 10, width);
  }

  lemma FullMillis(t: string)
    requires |t| == 3
    ensures Millis(t) == Value(t, 10)
  {
    assert t + Zeros(0) == t;
  }

  lemma FormatShape(t: Time)
    requires t.h <= 99 && t.m <= 99 && t.s <= 99 && t.ms <= 999
    ensures |FormatTime(t)| == 12 && ParseTime(FormatTime(t)) == Some(t)
  {
    assert Pow(10, 2) == 100 && Pow(10, 3) == 1000;
    var h, m, s, ms := PadStart(Print(t.h, 10), 2), PadStart(Print(t.m, 10), 2), PadStart(Print(t.s, 10), 2),
        PadStart(Print(t.ms, 10), 3);
    FieldText(t.h, 2);
    FieldText(t.m, 2);
    FieldText(t.s, 2);
    FieldText(t.ms, 3);
    TimeSlices(h, m, s, ms);
    FullMillis(ms);
  }

  lemma MillisBound(fraction: string)
    requires |fraction| <= 3 && IsNumeral(fraction, 10)
    ensures Millis(fraction) <= 999
    ensures |fraction| == 3 ==> PadStart(Print(Millis(fraction), 10), 3) == fraction
  {
    var digits := fraction + Zeros(3 - |fraction|);
    assert IsNumeral(digits, 10) && |digits| == 3;
    ValueBelowPow(digits, 10);
    assert Pow(10, 3) == 1000;
    if |fraction| == 3 {
      assert digits == fraction;
      PaddedInverse(fraction, 10);
    }
  }

  lemma FormatParsed(v: string)
    requires ParseTime(v).Some?
    ensures var t := ParseTime(v).value; t.h <= 99 && t.m <= 99 && t.s <= 99 && t.ms <= 999
    ensures |v| == 12 ==> FormatTime(ParseTime(v).value) == v
  {
    TwoDigits(v[..2]);
    TwoDigits(v[3..5]);
    if |v| >= 8 {
      TwoDigits(v[6..8]);
    }
    if |v| > 8 {
      MillisBound(v[9..]);
    }
    if |v| == 12 {
      assert v == v[..2] + ":" + v[3..5] + ":" + v[6..8] + "." + v[9..];
    }
  }

  lemma DecodedTimeHasColon(s: string)
    requires s != ""
    ensures ':' in DecodeTime(s)
    ensures Read(s, 62).Some? ==> ':' !in s
  {
    match Read(s, 62)
    case None =>
      assert "NaN:NaN:NaN.NaN"[3] == ':';
    case Some(total) =>
      var h := PadStart(PrintInt(total / 1000 / 60 / 60, 10), 2);
      assert DecodeTime(s)[|h|] == ':';
      assert ValueOf(':') == 62;
  }

  lemma UnreadableTime()
    ensures Read("NaN:NaN:NaN.NaN", 62) == None
  {
    assert ValueOf("NaN:NaN:NaN.NaN"[3]) == 62;
  }

  /** A text the pattern matches comes back unchanged exactly when it is written out to the
      millisecond and minutes and seconds are below 60. Any other text is stored raw and comes
      back only if it is empty or the very text an unreadable time is shown as. */
  lemma TimeRoundTrip(v: string)
    ensures DecodeTime(EncodeTime(v)) == v <==>
              match ParseTime(v)
              case Some(t) => |v| == 12 && t.m <= 59 && t.s <= 59
              case None => v == "" || v == "NaN:NaN:NaN.NaN"
  {
    match ParseTime(v)
    case Some(t) =>
      MatchedTimeRoundTrip(v);
    case None =>
      if v != "" {
        DecodedTimeHasColon(v);
        UnreadableTime();
      }
  }

  lemma MatchedTimeRoundTrip(v: string)
    requires ParseTime(v).Some?
    ensures DecodeTime(EncodeTime(v)) == v
        <==> |v| == 12 && ParseTime(v).value.m <= 59 && ParseTime(v).value.s <= 59
  {
    var t := ParseTime(v).value;
    FormatParsed(v);
    DecodeTotal(TotalMs(t));
    var back := TimeOf(TotalMs(t));
    TimeOfTotal(t);
    if back.h <= 99 {
      FormatShape(back);
    } else {
      LongHours(back);
    }
  }

  lemma TimeOfTotal(t: Time)
    requires t.ms <= 999
    ensures TimeOf(TotalMs(t)) == t <==> t.m <= 59 && t.s <= 59
    ensures var back := TimeOf(TotalMs(t)); back.m <= 59 && back.s <= 59 && back.ms <= 999
  {
    assert TotalMs(t) / 1000 == t.h * 3600 + t.m * 60 + t.s && TotalMs(t) % 1000 == t.ms;
  }

  lemma LongHours(t: Time)
    requires t.h > 99 && t.m <= 99 && t.s <= 99 && t.ms <= 999
    ensures |FormatTime(t)| > 12
  {
    assert Pow(10, 2) == 100 && Pow(10, 3) == 1000;
    PrintLength(t.h, 10, 2);
    PaddedRoundTrip(t.m, 10, 2);
    PaddedRoundTrip(t.s, 10, 2);
    PaddedRoundTrip(t.ms, 10, 3);
  }

  /** A validated time means what was written, down to the stored text, and comes back as it was;
      validating it again changes nothing. */
  lemma TimeValidated(v: string)
    requires ValidateTime(v).Some?
    ensures var c := ValidateTime(v).value;
      && ValidateTime(c) == Some(c)
      && EncodeTime(c) == EncodeTime(v)
      && DecodeTime(EncodeTime(c)) == c
  {
    var t := ParseTime(v).value;
    FormatShape(t);
    TimeRoundTrip(FormatTime(t));
  }
}

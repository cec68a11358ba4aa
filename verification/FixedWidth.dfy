/** The fixed-width fields of src/schema.class.ts: UUID as four 32-bit chunks of six base-62
    digits, MAC address as 48 bits in nine, IPv4 network as 32 bits in six plus one digit of
    prefix, colour as 24 bits in five; with the validators of src/validator.class.ts that put
    their texts in canonical form first. */
module FixedWidth {
  import opened Options
  import opened Numerals
  import opened Texts

  lemma Powers()
    ensures Pow(16, 6) == 0x100_0000 < Pow(62, 5)
    ensures Pow(16, 8) == 0x1_0000_0000 < Pow(62, 6)
    ensures Pow(16, 12) < Pow(62, 9)
    ensures Pow(10, 3) == 1000
  {
    assert Pow(62, 5) == 916132832;
    assert Pow(62, 6) == 56800235584;
    assert Pow(62, 9) == 13537086546263552;
    assert Pow(16, 12) == 281474976710656;
  }

  // UUID (section 4 of RFC 9562).

  function UuidHex(v: string): string {
    Lower(Remove(v, {'-'}))
  }

  // toBase62(parseInt(h, 16)).padStart(6, '0')
  function Chunk(h: string): string {
    PadStart(EncodeNumber(ParseInt(h, 16)), 6)
  }

  // A text without 32 characters besides dashes is stored as it is.
  function EncodeUuid(v: string): string {
    var hex := UuidHex(v);
    if |hex| == 32 then Chunk(hex[..8]) + Chunk(hex[8..16]) + Chunk(hex[16..24]) + Chunk(hex[24..]) else v
  }

  function Unchunk(c: string): (h: string)
    ensures |h| >= 8
  {
    PadStart(ToText(Read(c, 62), 16), 8)
  }

  function Dashed(hex: string): string
    requires |hex| >= 32
  {
    hex[..8] + "-" + hex[8..12] + "-" + hex[12..16] + "-" + hex[16..20] + "-" + hex[20..32]
  }

  function DecodeUuid(s: string): string {
    if |s| == 24
        && '-' !in s then Dashed(Unchunk(s[..6]) + Unchunk(s[6..12]) + Unchunk(s[12..18]) + Unchunk(s[18..])) else s
  }

  lemma ChunkRoundTrip(h: string)
    requires IsNumeral(h, 16) && |h| == 8
    ensures |Chunk(h)| == 6 && '-' !in Chunk(h) && Unchunk(Chunk(h)) == h
  {
    Powers();
    ParseNumeral(h, 16);
    RecodeRoundTrip(h, 16, 6);
    NumeralLacks(Chunk(h), 62, '-');
  }

  // Eight characters that are not all hexadecimal: six digits of whatever number they start with,
  // or the word for no number.
  lemma AnyChunk(h: string)
    requires |h| == 8 && '-' !in h
    ensures '-' !in Chunk(h)
    ensures if ParseInt(h, 16).Some? then |Chunk(h)| == 6 && IsNumeral(Unchunk(Chunk(h)), 16)
        && |Unchunk(Chunk(h))| == 8 else |Chunk(h)| == 9
  {
    ParseBound(h, 16);
    match ParseInt(h, 16)
    case Some(z) =>
      Powers();
      PaddedRoundTrip(z, 62, 6);
      ReadNumeral(Chunk(h), 62);
      NumeralLacks(Chunk(h), 62, '-');
      PaddedRoundTrip(z, 16, 8);
    case None =>
      assert Chunk(h) == "undefined";
  }

  lemma Slices(a: string, b: string, c: string, d: string)
    requires |a| == |b| == |c| == |d| == 6
    ensures var s := a + b + c + d;
      |s| == 24 && s[..6] == a && s[6..12] == b && s[12..18] == c && s[18..] == d
  {
  }

  lemma FourChunks(a: string, b: string, c: string, d: string)
    requires |a| == |b| == |c| == |d| == 8 && IsNumeral(a, 16) && IsNumeral(b, 16) && IsNumeral(c, 16)
        && IsNumeral(d, 16)
    ensures var s := Chunk(a) + Chunk(b) + Chunk(c) + Chunk(d);
      |s| == 24 && DecodeUuid(s) == Dashed(a + b + c + d)
  {
    ChunkRoundTrip(a);
    ChunkRoundTrip(b);
    ChunkRoundTrip(c);
    ChunkRoundTrip(d);
    Slices(Chunk(a), Chunk(b), Chunk(c), Chunk(d));
  }

  lemma UuidDigits(v: string)
    requires |UuidHex(v)| == 32 && IsNumeral(UuidHex(v), 16)
    ensures |EncodeUuid(v)| == 24 && DecodeUuid(EncodeUuid(v)) == Dashed(UuidHex(v))
  {
    var hex := UuidHex(v);
    var a, b, c, d := hex[..8], hex[8..16], hex[16..24], hex[24..];
    assert a + b + c + d == hex;
    assert EncodeUuid(v) == Chunk(a) + Chunk(b) + Chunk(c) + Chunk(d);
    FourChunks(a, b, c, d);
  }

  lemma ChunkValue(h: string)
    requires IsNumeral(h, 16) && |h| == 8
    ensures |Chunk(h)| == 6 && IsNumeral(Chunk(h), 62) && Value(Chunk(h), 62) == Value(h, 16)
  {
    Powers();
    ParseNumeral(h, 16);
    ValueBelowPow(h, 16);
    PaddedRoundTrip(Value(h, 16), 62, 6);
  }

  /** The stored text: the number of each eight hexadecimal digits in six base-62 digits, in order. */
  lemma UuidStored(v: string)
    requires |UuidHex(v)| == 32 && IsNumeral(UuidHex(v), 16)
    ensures var s, hex := EncodeUuid(v), UuidHex(v);
      && |s| == 24 && IsNumeral(s, 62)
      && Value(s[..6], 62) == Value(hex[..8], 16) && Value(s[6..12], 62) == Value(hex[8..16], 16)
      && Value(s[12..18], 62) == Value(hex[16..24], 16) && Value(s[18..], 62) == Value(hex[24..], 16)
  {
    var hex := UuidHex(v);
    var a, b, c, d := hex[..8], hex[8..16], hex[16..24], hex[24..];
    ChunkValue(a);
    ChunkValue(b);
    ChunkValue(c);
    ChunkValue(d);
    Slices(Chunk(a), Chunk(b), Chunk(c), Chunk(d));
    FourNumerals(Chunk(a), Chunk(b), Chunk(c), Chunk(d), 62);
  }

  /** The form it comes back in: 36 characters, the digits in order with dashes at 8, 13, 18 and 23. */
  lemma DashedPlaces(hex: string, i: nat)
    requires |hex| == 32 && i < 36
    ensures |Dashed(hex)| == 36
    ensures Dashed(hex)[i] ==
              if i == 8 || i == 13 || i == 18 || i == 23 then '-'
              else if i < 8 then hex[i] else if i < 13 then hex[i - 1]
              else if i < 18 then hex[i - 2] else if i < 23 then hex[i - 3] else hex[i - 4]
  {
  }

  // The canonical text form: lower case, dashes after digits 8, 12, 16 and 20.
  predicate IsCanonicalUuid(v: string) {
    |UuidHex(v)| == 32 && IsNumeral(UuidHex(v), 16) && v == Dashed(UuidHex(v))
  }

  lemma NoDashes(v: string)
    ensures '-' !in UuidHex(v)
  {
    RemovedLacks(v, {'-'}, '-');
  }

  lemma {:induction false} RemovedLacks(s: string, chars: set<char>, c: char)
    requires c in chars
    ensures c !in Remove(s, chars)
  {
    if s != "" {
      RemovedLacks(s[1..], chars, c);
    }
  }

  // Texts without dashes are their own digits, up to case.
  lemma OwnHex(s: string)
    requires '-' !in s
    ensures |UuidHex(s)| == |s|
  {
    RemoveNothing(s, {'-'});
  }

  lemma DashedHex(hex: string)
    requires |hex| == 32 && IsNumeral(hex, 16)
    ensures UuidHex(Dashed(hex)) == hex
  {
    var a, b, c, d, e := hex[..8], hex[8..12], hex[12..16], hex[16..20], hex[20..32];
    NumeralLacks(hex, 16, '-');
    DashesGone(a, b, c, d, e);
    assert a + b + c + d + e == hex;
    LowerNumeral(hex);
  }

  lemma DashesGone(a: string, b: string, c: string, d: string, e: string)
    requires '-' !in a && '-' !in b && '-' !in c && '-' !in d && '-' !in e
    ensures Remove(a + "-" + b + "-" + c + "-" + d + "-" + e, {'-'}) == a + b + c + d + e
  {
    RemoveNothing(a, {'-'});
    OneDashGone(a, b);
    OneDashGone(a + "-" + b, c);
    OneDashGone(a + "-" + b + "-" + c, d);
    OneDashGone(a + "-" + b + "-" + c + "-" + d, e);
  }

  lemma OneDashGone(front: string, part: string)
    requires '-' !in part
    ensures Remove(front + "-" + part, {'-'}) == Remove(front, {'-'}) + part
  {
    RemoveConcat(front, "-" + part, {'-'});
    assert front + ("-" + part) == front + "-" + part;
    RemoveCons('-', part, {'-'});
    RemoveNothing(part, {'-'});
  }

  lemma NoneOf(a: string, b: string, c: string, d: string, x: char)
    requires x !in a && x !in b && x !in c && x !in d
    ensures x !in a + b + c + d
  {
  }

  lemma FourNumerals(a: string, b: string, c: string, d: string, r: Radix)
    requires IsNumeral(a, r) && IsNumeral(b, r) && IsNumeral(c, r) && IsNumeral(d, r)
    ensures IsNumeral(a + b + c + d, r)
  {
  }

  // 32 characters that are not all hexadecimal never come back.
  lemma NotHexLost(v: string)
    requires |UuidHex(v)| == 32 && !IsNumeral(UuidHex(v), 16)
    ensures DecodeUuid(EncodeUuid(v)) != v
  {
    var hex, s := UuidHex(v), EncodeUuid(v);
    var a, b, c, d := hex[..8], hex[8..16], hex[16..24], hex[24..];
    NoDashes(v);
    AnyChunk(a);
    AnyChunk(b);
    AnyChunk(c);
    AnyChunk(d);
    NoneOf(Chunk(a), Chunk(b), Chunk(c), Chunk(d), '-');
    if |s| == 24 {
      Slices(Chunk(a), Chunk(b), Chunk(c), Chunk(d));
      FourNumerals(Unchunk(Chunk(a)), Unchunk(Chunk(b)), Unchunk(Chunk(c)), Unchunk(Chunk(d)), 16);
      DashedHex(Unchunk(Chunk(a)) + Unchunk(Chunk(b)) + Unchunk(Chunk(c)) + Unchunk(Chunk(d)));
    } else {
      OwnHex(s);
    }
  }

  /** A stored UUID has 24 characters and reads back in canonical form. So a text comes back
      unchanged exactly when it is canonical, or has not 32 characters besides dashes and is not
      mistaken for a stored UUID. */
  lemma UuidRoundTrip(v: string)
    ensures |UuidHex(v)| == 32 && IsNumeral(UuidHex(v), 16)
        ==> |EncodeUuid(v)| == 24 && DecodeUuid(EncodeUuid(v)) == Dashed(UuidHex(v))
    ensures DecodeUuid(EncodeUuid(v)) == v
        <==> (IsCanonicalUuid(v) || (|UuidHex(v)| != 32 && !(|v| == 24 && '-' !in v)))
  {
    if |UuidHex(v)| == 32 {
      if IsNumeral(UuidHex(v), 16) {
        UuidDigits(v);
      } else {
        NotHexLost(v);
      }
    }
  }

  // MAC address.

  function PairUp(h: string): seq<string> {
    if |h| < 2 then [] else [h[..2]] + PairUp(h[2..])
  }

  function Colons(hex: string): string {
    Join(PairUp(hex), ':')
  }

  lemma {:induction false} PairsStrip(h: string, sep: char, chars: set<char>)
    requires |h| % 2 == 0 && sep in chars && forall c | c in h :: c !in chars
    ensures Remove(Join(PairUp(h), sep), chars) == h
  {
    if |h| == 2 {
      assert PairUp(h) == [h] by { assert h[..2] == h && PairUp(h[2..]) == []; }
      RemoveNothing(h, chars);
    } else if |h| > 2 {
      FirstPair(h, sep);
      PairsStrip(h[2..], sep, chars);
      SeparatorStrip(h[..2], Join(PairUp(h[2..]), sep), sep, chars);
      assert h[..2] + h[2..] == h;
    }
  }

  lemma FirstPair(h: string, sep: char)
    requires |h| >= 4
    ensures Join(PairUp(h), sep) == h[..2] + [sep] + Join(PairUp(h[2..]), sep)
  {
    assert PairUp(h)[1..] == PairUp(h[2..]);
  }

  lemma SeparatorStrip(pair: string, rest: string, sep: char, chars: set<char>)
    requires sep in chars && forall c | c in pair :: c !in chars
    ensures Remove(pair + [sep] + rest, chars) == pair + Remove(rest, chars)
  {
    RemoveNothing(pair, chars);
    RemoveConcat(pair, [sep] + rest, chars);
    assert pair + ([sep] + rest) == pair + [sep] + rest;
    RemoveCons(sep, rest, chars);
  }

  // The validator: separators dropped, lower case, colons between pairs. None is a validation error.
  function ValidateMac(v: string): Option<string> {
    var cleaned := Lower(Remove(v, {':', '-', '.'}));
    if |cleaned| == 12 && IsNumeral(cleaned, 16) then Some(Colons(cleaned)) else None
  }

  function MacHex(v: string): string {
    Lower(Remove(v, {':'}))
  }

  function EncodeMac(v: string): string
    requires |MacHex(v)| == 12 ==> IsNumeral(MacHex(v), 16)
  {
    if |MacHex(v)| == 12 then PadStart(Print(Value(MacHex(v), 16), 62), 9) else v
  }

  function DecodeMac(s: string): string {
    if |s| == 9 && ':' !in s then Colons(PadStart(ToText(Read(s, 62), 16), 12)) else s
  }

  lemma MacDigits(v: string)
    requires |MacHex(v)| == 12 && IsNumeral(MacHex(v), 16)
    ensures |EncodeMac(v)| == 9 && DecodeMac(EncodeMac(v)) == Colons(MacHex(v))
  {
    Powers();
    RecodeRoundTrip(MacHex(v), 16, 9);
    NumeralLacks(EncodeMac(v), 62, ':');
  }

  lemma {:induction false} PairLength(h: string, sep: char)
    requires |h| % 2 == 0 && h != ""
    ensures 2 * |Join(PairUp(h), sep)| == 3 * |h| - 2
  {
    if |h| == 2 {
      assert PairUp(h) == [h] by { assert h[..2] == h && PairUp(h[2..]) == []; }
    } else {
      FirstPair(h, sep);
      PairLength(h[2..], sep);
    }
  }

  // One pair and its separator in front move every other place.
  lemma PlacesShift(h: string, s: string, rest: string, sep: char, i: nat)
    requires 1 <= i && 2 * i + 2 <= |h| && 3 * i + 2 <= |s| && s == h[..2] + [sep] + rest
    requires rest[3 * i - 3..3 * i - 1] == h[2..][2 * i - 2..2 * i]
    requires 2 * i + 2 < |h| ==> 3 * i + 2 < |s| && rest[3 * i - 1] == sep
    ensures s[3 * i..3 * i + 2] == h[2 * i..2 * i + 2]
    ensures 2 * i + 2 < |h| ==> s[3 * i + 2] == sep
  {
    assert h[2..][2 * i - 2..2 * i] == h[2 * i..2 * i + 2];
    assert s[3..] == rest;
    assert s[3..][3 * i - 3..3 * i - 1] == s[3 * i..3 * i + 2];
  }

  lemma FirstPlaces(h: string, sep: char)
    requires |h| % 2 == 0 && h != ""
    ensures var s := Join(PairUp(h), sep);
      |s| >= 2 && s[..2] == h[..2] && (|h| > 2 ==> |s| > 2 && s[2] == sep)
  {
    if |h| == 2 {
      assert PairUp(h) == [h] by { assert h[..2] == h && PairUp(h[2..]) == []; }
    } else {
      FirstPair(h, sep);
    }
  }

  // Where the pairs and the separators of a joined text are.
  lemma {:induction false} PairPlaces(h: string, sep: char, i: nat)
    requires |h| % 2 == 0 && 2 * i < |h|
    ensures var s := Join(PairUp(h), sep);
      && 2 * |s| == 3 * |h| - 2
      && s[3 * i..3 * i + 2] == h[2 * i..2 * i + 2]
      && (2 * i + 2 < |h| ==> s[3 * i + 2] == sep)
  {
    PairLength(h, sep);
    if i == 0 {
      FirstPlaces(h, sep);
    } else {
      PairPlaces(h[2..], sep, i - 1);
      PlacesShift(h, Join(PairUp(h), sep), Join(PairUp(h[2..]), sep), sep, i) by {
        FirstPair(h, sep);
        PairLength(h[2..], sep);
      }
    }
  }

  /** The validator takes a text exactly when it has twelve hexadecimal digits besides separators.
      What it leaves means what was written: those digits, whatever their case and separators, in
      pairs with colons between; and their number is stored. */
  lemma MacMeaning(v: string, i: nat)
    requires i < 6
    ensures var digits := Lower(Remove(v, {':', '-', '.'}));
      ValidateMac(v).Some? <==> |digits| == 12 && IsNumeral(digits, 16)
    ensures ValidateMac(v).Some? ==>
      var c, digits := ValidateMac(v).value, Lower(Remove(v, {':', '-', '.'}));
      && |digits| == 12 && |c| == 17
      && c[3 * i..3 * i + 2] == digits[2 * i..2 * i + 2] && (i < 5 ==> c[3 * i + 2] == ':')
      && MacHex(c) == digits
      && |EncodeMac(c)| == 9 && IsNumeral(EncodeMac(c), 62) && Value(EncodeMac(c), 62) == Value(digits, 16)
  {
    var digits := Lower(Remove(v, {':', '-', '.'}));
    if ValidateMac(v).Some? {
      PairPlaces(digits, ':', i);
      NumeralLacks(digits, 16, ':');
      PairsStrip(digits, ':', {':'});
      LowerNumeral(digits);
      Powers();
      ValueBelowPow(digits, 16);
      PaddedRoundTrip(Value(digits, 16), 62, 9);
    }
  }

  /** A validated MAC address is stored in nine characters and comes back as it was, and
      validating it again changes nothing. */
  lemma MacRoundTrip(v: string)
    requires ValidateMac(v).Some?
    ensures var c := ValidateMac(v).value;
      && ValidateMac(c) == Some(c)
      && |MacHex(c)| == 12 && IsNumeral(MacHex(c), 16)
      && |EncodeMac(c)| == 9
      && DecodeMac(EncodeMac(c)) == c
  {
    var hex, c := Lower(Remove(v, {':', '-', '.'})), ValidateMac(v).value;
    NumeralLacks(hex, 16, ':');
    NumeralLacks(hex, 16, '-');
    NumeralLacks(hex, 16, '.');
    PairsStrip(hex, ':', {':'});
    PairsStrip(hex, ':', {':', '-', '.'});
    LowerNumeral(hex);
    MacDigits(c);
  }

  // Colour.

  function Bare(v: string): string {
    if v != "" && v[0] == '#' then v[1..] else v
  }

  function ValidateColor(v: string): Option<string> {
    var hex := Lower(Bare(v));
    var full := if |hex| == 3 && IsNumeral(hex, 16) then [hex[0], hex[0], hex[1], hex[1], hex[2], hex[2]] else hex;
    if |full| == 6 && IsNumeral(full, 16) then Some("#" + full) else None
  }

  function EncodeColor(v: string): string
    requires |v| == 7 && v[0] == '#' ==> IsNumeral(Lower(v[1..]), 16)
  {
    if |v| == 7 && v[0] == '#' then PadStart(Print(Value(Lower(v[1..]), 16), 62), 5) else v
  }

  function DecodeColor(s: string): string {
    if |s| == 5 && s[0] != '#' then "#" + PadStart(ToText(Read(s, 62), 16), 6) else s
  }

  /** The validator takes six or three hexadecimal digits, perhaps after a number sign, and nothing
      else. What it leaves means what was written: six digits as they are in lower case, each of
      three digits twice; and their number is stored. */
  lemma ColorMeaning(v: string, i: nat)
    requires i < 6
    ensures var digits := Lower(if v != "" && v[0] == '#' then v[1..] else v);
      ValidateColor(v).Some? <==> (|digits| == 6 || |digits| == 3) && IsNumeral(digits, 16)
    ensures ValidateColor(v).Some? ==>
      var c, digits := ValidateColor(v).value, Lower(if v != "" && v[0] == '#' then v[1..] else v);
      && (|digits| == 6 || |digits| == 3)
      && |c| == 7 && c[0] == '#' && c[1 + i] == (if |digits| == 6 then digits[i] else digits[i / 2])
      && IsNumeral(c[1..], 16) && Lower(c[1..]) == c[1..]
      && |EncodeColor(c)| == 5 && IsNumeral(EncodeColor(c), 62) && Value(EncodeColor(c), 62) == Value(c[1..], 16)
  {
    if ValidateColor(v).Some? {
      ColorExpanded(v, i);
      ColorNumber(ValidateColor(v).value);
    }
  }

  lemma ColorExpanded(v: string, i: nat)
    requires ValidateColor(v).Some? && i < 6
    ensures var c, digits := ValidateColor(v).value, Lower(Bare(v));
      && (|digits| == 6 || |digits| == 3)
      && |c| == 7 && c[0] == '#' && c[1 + i] == (if |digits| == 6 then digits[i] else digits[i / 2])
      && IsNumeral(c[1..], 16) && Lower(c[1..]) == c[1..]
  {
    LowerNumeral(ValidateColor(v).value[1..]);
  }

  lemma ColorNumber(c: string)
    requires |c| == 7 && c[0] == '#' && IsNumeral(c[1..], 16) && Lower(c[1..]) == c[1..]
    ensures |EncodeColor(c)| == 5 && IsNumeral(EncodeColor(c), 62) && Value(EncodeColor(c), 62) == Value(c[1..], 16)
  {
    Powers();
    ValueBelowPow(c[1..], 16);
    PaddedRoundTrip(Value(c[1..], 16), 62, 5);
  }

  /** A validated colour, short forms expanded, is stored in five characters and comes back as
      it was, and validating it again changes nothing. */
  lemma ColorRoundTrip(v: string)
    requires ValidateColor(v).Some?
    ensures var c := ValidateColor(v).value;
      && ValidateColor(c) == Some(c)
      && |c| == 7 && c[0] == '#' && IsNumeral(Lower(c[1..]), 16)
      && |EncodeColor(c)| == 5
      && DecodeColor(EncodeColor(c)) == c
  {
    var c := ValidateColor(v).value;
    ColorDigits(c[1..]);
    assert c == "#" + c[1..];
  }

  lemma ColorDigits(hex: string)
    requires |hex| == 6 && IsNumeral(hex, 16)
    ensures var c := "#" + hex;
      && ValidateColor(c) == Some(c)
      && IsNumeral(Lower(c[1..]), 16)
      && |EncodeColor(c)| == 5
      && DecodeColor(EncodeColor(c)) == c
  {
    var c := "#" + hex;
    assert Bare(c) == hex == c[1..];
    LowerNumeral(hex);
    ColorStored(hex);
  }

  lemma ColorStored(hex: string)
    requires |hex| == 6 && IsNumeral(hex, 16)
    ensures var s := PadStart(Print(Value(hex, 16), 62), 5);
      |s| == 5 && DecodeColor(s) == "#" + hex
  {
    Powers();
    RecodeRoundTrip(hex, 16, 5);
    NumeralLacks(PadStart(Print(Value(hex, 16), 62), 5), 62, '#');
  }

  // IPv4 network in prefix notation (section 3.1 of RFC 4632).

  datatype Network = Network(a: nat, b: nat, c: nat, d: nat, prefix: nat)

  predicate InRange(n: Network) {
    n.a <= 255 && n.b <= 255 && n.c <= 255 && n.d <= 255 && n.prefix <= 32
  }

  predicate IsDecimal(s: string, most: nat) {
    1 <= |s| <= most && IsNumeral(s, 10)
  }

  // The match of the validator's pattern, its five numbers read.
  function ParseCidr(v: string): Option<Network> {
    var halves := Split(v, '/');
    if |halves| != 2 then None
    else
      var o := Split(halves[0], '.');
      if |o| == 4 && IsDecimal(o[0], 3) && IsDecimal(o[1], 3) && IsDecimal(o[2], 3) && IsDecimal(o[3], 3)
          && IsDecimal(halves[1], 2)
      then Some(Network(Value(o[0], 10), Value(o[1], 10), Value(o[2], 10), Value(o[3], 10), Value(halves[1], 10)))
      else None
  }

  function FormatCidr(n: Network): string {
    Join([Join([Print(n.a, 10), Print(n.b, 10), Print(n.c, 10), Print(n.d, 10)], '.'), Print(n.prefix, 10)], '/')
  }

  function ValidateCidr(v: string): Option<string> {
    match ParseCidr(v)
    case Some(n) => if InRange(n) then Some(FormatCidr(n)) else None
    case None => None
  }

  lemma OctetText(n: nat, most: nat)
    requires most >= 1 && n < Pow(10, most)
    ensures IsDecimal(Print(n, 10), most) && Value(Print(n, 10), 10) == n
  {
    PrintShape(n, 10);
    ValuePrint(n, 10);
    PrintLength(n, 10, most);
  }

  lemma {:induction false} JoinLacks(parts: seq<string>, sep: char, c: char)
    requires sep != c && forall i | 0 <= i < |parts| :: c !in parts[i]
    ensures c !in Join(parts, sep)
  {
    if |parts| > 1 {
      JoinLacks(parts[1..], sep, c);
    }
  }

  // Four numbers with dots between, a slash and a fifth.
  function CidrText(a: string, b: string, c: string, d: string, prefix: string): string {
    a + "." + b + "." + c + "." + d + "/" + prefix
  }

  lemma CidrJoined(a: string, b: string, c: string, d: string, prefix: string)
    ensures Join([Join([a, b, c, d], '.'), prefix], '/') == CidrText(a, b, c, d, prefix)
  {
    assert [a, b, c, d][1..] == [b, c, d] && [b, c, d][1..] == [c, d] && [c, d][1..] == [d];
    assert Join([c, d], '.') == c + "." + d;
    assert Join([b, c, d], '.') == b + "." + (c + "." + d);
    assert Join([a, b, c, d], '.') == a + "." + (b + "." + (c + "." + d));
    var address := Join([a, b, c, d], '.');
    assert [address, prefix][1..] == [prefix];
    assert Join([address, prefix], '/') == address + "/" + prefix;
  }

  lemma CidrParsed(a: string, b: string, c: string, d: string, prefix: string)
    requires IsDecimal(a, 3) && IsDecimal(b, 3) && IsDecimal(c, 3) && IsDecimal(d, 3) && IsDecimal(prefix, 2)
    ensures ParseCidr(CidrText(a, b, c, d, prefix))
        == Some(Network(Value(a, 10), Value(b, 10), Value(c, 10), Value(d, 10), Value(prefix, 10)))
  {
    var o := [a, b, c, d];
    forall i | 0 <= i < 4
      ensures '.' !in o[i] && '/' !in o[i]
    {
      NumeralLacks(o[i], 10, '.');
      NumeralLacks(o[i], 10, '/');
    }
    NumeralLacks(prefix, 10, '/');
    SplitJoin(o, '.');
    JoinLacks(o, '.', '/');
    SplitJoin([Join(o, '.'), prefix], '/');
    CidrJoined(a, b, c, d, prefix);
  }

  // v is written so.
  ghost predicate IsCidrText(v: string, a: string, b: string, c: string, d: string, prefix: string) {
    && IsDecimal(a, 3) && IsDecimal(b, 3) && IsDecimal(c, 3) && IsDecimal(d, 3) && IsDecimal(prefix, 2)
    && v == CidrText(a, b, c, d, prefix)
  }

  /** No other text is read as a network. */
  lemma CidrOnly(v: string)
    ensures ParseCidr(v).Some? <==> exists a, b, c, d, prefix :: IsCidrText(v, a, b, c, d, prefix)
  {
    if ParseCidr(v).Some? {
      var halves := Split(v, '/');
      var o := Split(halves[0], '.');
      JoinSplit(v, '/');
      JoinSplit(halves[0], '.');
      CidrJoined(o[0], o[1], o[2], o[3], halves[1]);
      assert o == [o[0], o[1], o[2], o[3]] && halves == [halves[0], halves[1]];
      assert IsCidrText(v, o[0], o[1], o[2], o[3], halves[1]);
    }
    if a, b, c, d, prefix :| IsCidrText(v, a, b, c, d, prefix) {
      CidrParsed(a, b, c, d, prefix);
    }
  }

  lemma ParseFormatCidr(n: Network)
    requires InRange(n)
    ensures ParseCidr(FormatCidr(n)) == Some(n)
  {
    Powers();
    assert Pow(10, 2) == 100;
    OctetText(n.a, 3);
    OctetText(n.b, 3);
    OctetText(n.c, 3);
    OctetText(n.d, 3);
    OctetText(n.prefix, 2);
    CidrJoined(Print(n.a, 10), Print(n.b, 10), Print(n.c, 10), Print(n.d, 10), Print(n.prefix, 10));
    CidrParsed(Print(n.a, 10), Print(n.b, 10), Print(n.c, 10), Print(n.d, 10), Print(n.prefix, 10));
  }

  /** What the validator leaves of a network text are the same five numbers without leading
      zeros, and it takes them exactly up to 255 and 32. */
  lemma CidrMeaning(a: string, b: string, c: string, d: string, prefix: string)
    requires IsDecimal(a, 3) && IsDecimal(b, 3) && IsDecimal(c, 3) && IsDecimal(d, 3) && IsDecimal(prefix, 2)
    ensures var v := ValidateCidr(CidrText(a, b, c, d, prefix));
      && (v.Some? <==> Value(a, 10) <= 255 && Value(b, 10) <= 255 && Value(c, 10) <= 255 && Value(d, 10) <= 255
                       && Value(prefix, 10) <= 32)
      && (v.Some? ==>
          v.value == CidrText(Print(Value(a, 10), 10), Print(Value(b, 10), 10), Print(Value(c, 10), 10),
                              Print(Value(d, 10), 10), Print(Value(prefix, 10), 10)))
  {
    CidrParsed(a, b, c, d, prefix);
    CidrJoined(Print(Value(a, 10), 10), Print(Value(b, 10), 10), Print(Value(c, 10), 10), Print(Value(d, 10), 10),
               Print(Value(prefix, 10), 10));
  }

  // ((a << 24) | (b << 16) | (c << 8) | d) >>> 0, for octets in range.
  function Address(n: Network): nat {
    n.a * 0x100_0000 + n.b * 0x1_0000 + n.c * 0x100 + n.d
  }

  // The encoder reads a validated text.
  function EncodeCidr(v: string): string
    requires ValidateCidr(v) == Some(v)
  {
    var n := ParseCidr(v).value;
    PadStart(Print(Address(n), 62), 6) + Print(n.prefix, 62)
  }

  // (ip >>> shift) & 0xFF; NaN is 0 to the bit operators.
  function Octet(ip: Option<int>, shift: nat): nat
    requires shift > 0
  {
    ip.GetOr(0) % 0x1_0000_0000 / shift % 0x100
  }

  function DecodeCidr(s: string): string {
    if |s| == 7 && '.' !in s then
      var ip := Read(s[..6], 62);
      Join([Join([Print(Octet(ip, 0x100_0000), 10), Print(Octet(ip, 0x1_0000), 10), Print(Octet(ip, 0x100), 10),
          Print(Octet(ip, 1), 10)], '.'),
            ToText(Read(s[6..], 62), 10)], '/')
    else s
  }

  /** The stored text of a network: its address, the first octet the most significant, in six
      base-62 digits, and one digit for the prefix. */
  lemma CidrStored(n: Network)
    requires InRange(n)
    ensures var v := CidrText(Print(n.a, 10), Print(n.b, 10), Print(n.c, 10), Print(n.d, 10), Print(n.prefix, 10));
      && ValidateCidr(v) == Some(v)
      && |EncodeCidr(v)| == 7 && IsNumeral(EncodeCidr(v), 62)
      && Value(EncodeCidr(v)[..6], 62) == ((n.a * 256 + n.b) * 256 + n.c) * 256 + n.d
      && EncodeCidr(v)[6] == DigitChar(n.prefix)
  {
    CidrJoined(Print(n.a, 10), Print(n.b, 10), Print(n.c, 10), Print(n.d, 10), Print(n.prefix, 10));
    ParseFormatCidr(n);
    OctetsOfAddress(n);
    Powers();
    PaddedRoundTrip(Address(n), 62, 6);
    var s := EncodeCidr(FormatCidr(n));
    assert s[..6] == PadStart(Print(Address(n), 62), 6);
  }

  lemma OctetsOfAddress(n: Network)
    requires InRange(n)
    ensures Address(n) < 0x1_0000_0000
    ensures Octet(Some(Address(n)), 0x100_0000) == n.a && Octet(Some(Address(n)), 0x1_0000) == n.b
    ensures Octet(Some(Address(n)), 0x100) == n.c && Octet(Some(Address(n)), 1) == n.d
  {
    var ip := Address(n);
    assert ip % 0x1_0000_0000 == ip;
    DivModUnique(n.a, n.b * 0x1_0000 + n.c * 0x100 + n.d, 0x100_0000);
    DivModUnique(n.a * 0x100 + n.b, n.c * 0x100 + n.d, 0x1_0000);
    DivModUnique(n.a * 0x1_0000 + n.b * 0x100 + n.c, n.d, 0x100);
    DivModUnique(n.a, n.b, 0x100);
    DivModUnique(n.a * 0x100 + n.b, n.c, 0x100);
  }

  /** A validated network is stored in seven characters and comes back as it was, and
      validating it again changes nothing. */
  lemma CidrRoundTrip(v: string)
    requires ValidateCidr(v).Some?
    ensures var c := ValidateCidr(v).value;
      && ValidateCidr(c) == Some(c)
      && |EncodeCidr(c)| == 7
      && DecodeCidr(EncodeCidr(c)) == c
  {
    var n := ParseCidr(v).value;
    var c := FormatCidr(n);
    ParseFormatCidr(n);
    OctetsOfAddress(n);
    Powers();
    var s := EncodeCidr(c);
    PaddedRoundTrip(Address(n), 62, 6);
    PrintShape(n.prefix, 62);
    assert s[..6] == PadStart(Print(Address(n), 62), 6) && s[6..] == Print(n.prefix, 62);
    ReadNumeral(s[..6], 62);
    ReadPrint(n.prefix, 62);
    NumeralLacks(s, 62, '.');
  }
}

/** One field on its way into a stored record and back: the branches of `mapper` and `unmapper`
    in src/schema.class.ts, with the automatic hooks around them. */
module Fields {
  import opened Options
  import opened Numerals
  import opened ArrayCodec
  import Barcode
  import Duration
  import FixedWidth
  import PackedFields

  // Json(t) is what JSON.parse makes of the object or array text t.
  datatype FieldValue = Str(s: string) | Num(n: int) | Bool(b: bool) | Null | Undefined
                 | Strs(xs: seq<string>) | Nums(ns: seq<Option<int>>) | Json(text: string)

  datatype Kind = Uuid | Mac | Cidr | Color | TimeOfDay | Semver | Phone | Span | Ean
                | Integer | Boolean | StringArray | IntegerArray | Plain

  // The array separator, and which texts JSON.parse accepts.
  datatype Context = Context(sep: char, isJson: string -> bool)

  ghost predicate ValidContext(c: Context) {
    IsNumberSeparator(c.sep) && c.isJson("{}")
  }

  // What validation leaves in a field of each kind; an optional field may be null.
  predicate Validated(kind: Kind, v: FieldValue) {
    v.Null? ||
    match kind
    case Uuid => v.Str? && |FixedWidth.UuidHex(v.s)| == 32 && IsNumeral(FixedWidth.UuidHex(v.s), 16)
    case Mac => v.Str? && FixedWidth.ValidateMac(v.s) == Some(v.s)
    case Cidr => v.Str? && FixedWidth.ValidateCidr(v.s) == Some(v.s)
    case Color => v.Str? && FixedWidth.ValidateColor(v.s) == Some(v.s)
    case TimeOfDay => v.Str? && PackedFields.ValidateTime(v.s) == Some(v.s)
    case Semver => v.Str? && PackedFields.ValidateSemver(v.s) == Some(v.s)
    case Phone => v.Str? && PackedFields.ValidatePhone(v.s) == Some(v.s)
    case Span => v.Num? && v.n >= 0
    case Ean => v.Str? && Barcode.ValidateEan(v.s) == Some(v.s)
    case Integer => v.Num?
    case Boolean => v.Bool?
    case StringArray => v.Strs?
    case IntegerArray => v.Nums? && forall i | 0 <= i < |v.ns| :: v.ns[i].Some?
    case Plain => v.Str? || v.Num? || v.Bool?
  }

  function Numbers(ns: seq<Option<int>>): seq<int>
    requires forall i | 0 <= i < |ns| :: ns[i].Some?
  {
    if ns == [] then [] else [ns[0].value] + Numbers(ns[1..])
  }

  // The generic string branch of the mapper.
  function StoreText(s: string): FieldValue {
    if s == "[object Object]" then Str("{}") else Str(s)
  }

  // The beforeMap hook of the kind, then the mapper's branch for the attribute.
  function Store(c: Context, kind: Kind, v: FieldValue): FieldValue
    requires Validated(kind, v)
  {
    if v.Null? then (if kind.Boolean? then Str("0") else v)
    else
      match kind
      case Uuid => Str(FixedWidth.EncodeUuid(v.s))
      case Mac => FixedWidth.MacRoundTrip(v.s); Str(FixedWidth.EncodeMac(v.s))
      case Cidr => Str(FixedWidth.EncodeCidr(v.s))
      case Color => FixedWidth.ColorRoundTrip(v.s); Str(FixedWidth.EncodeColor(v.s))
      case TimeOfDay => Str(PackedFields.EncodeTime(v.s))
      case Semver => Str(PackedFields.EncodeSemver(v.s))
      case Phone => PackedFields.PhoneValidated(v.s); Str(PackedFields.EncodePhone(v.s))
      case Span => Str(Duration.EncodeDuration(v.n))
      case Ean => Str(Barcode.EncodeEan(v.s))
      case Integer => StoreText(PrintInt(v.n, 62))
      case Boolean => StoreText(if v.b then "1" else "0")
      case StringArray => StoreText(FromArray(v.xs, c.sep))
      case IntegerArray => StoreText(FromArrayOfNumbers(Numbers(v.ns), c.sep))
      case Plain => if v.Str? then StoreText(v.s) else v
  }

  // A text the generic branch of the unmapper parses: it starts like JSON and is JSON.
  predicate LooksJson(c: Context, s: string) {
    s != "" && (s[0] == '{' || s[0] == '[') && c.isJson(s)
  }

  function LoadText(c: Context, v: FieldValue): FieldValue {
    if !v.Str? then v
    else if v.s == "[object Object]" then Json("{}")
    else if LooksJson(c, v.s) then Json(v.s)
    else v
  }

  // SchemaActions.fromBase62
  function FromBase62(v: FieldValue): FieldValue {
    match v
    case Null => Null
    case Num(n) => v
    case Str(s) =>
      if s == "" then v
      else (match Read(s, 62) case Some(n) => Num(n) case None => Undefined)
    case _ => Undefined
  }

  // SchemaActions.toBool
  function ToBool(v: FieldValue): FieldValue {
    Bool(v == Bool(true) || v == Num(1) || v == Str("true") || v == Str("1") || v == Str("yes") || v == Str("y"))
  }

  // The text String(x) gives for what JSON.parse made of t; an array is kept as it is.
  function ToStrings(c: Context, v: FieldValue): FieldValue {
    match v
    case Str(s) => Strs(ToArraySpec(s, c.sep))
    case Json(t) => if t != "" && t[0] == '{' then Strs(ToArraySpec("[object Object]", c.sep)) else v
    case _ => v
  }

  function ToNumbers(c: Context, v: FieldValue): FieldValue {
    match v
    case Str(s) => Nums(ToArrayOfNumbersSpec(s, c.sep))
    case Json(t) => if t != "" && t[0] == '{' then Nums(ToArrayOfNumbersSpec("[object Object]", c.sep)) else v
    case _ => v
  }

  // The unmapper's branch for the attribute, then the afterUnmap hook of the kind.
  function Load(c: Context, kind: Kind, v: FieldValue): FieldValue {
    match kind
    case Uuid => if v.Str? then Str(FixedWidth.DecodeUuid(v.s)) else v
    case Mac => if v.Str? then Str(FixedWidth.DecodeMac(v.s)) else v
    case Cidr => if v.Str? then Str(FixedWidth.DecodeCidr(v.s)) else v
    case Color => if v.Str? then Str(FixedWidth.DecodeColor(v.s)) else v
    case TimeOfDay => if v.Str? then Str(PackedFields.DecodeTime(v.s)) else v
    case Semver => if v.Str? then Str(PackedFields.DecodeSemver(v.s)) else v
    case Phone => if v.Str? then Str(PackedFields.DecodePhone(v.s)) else v
    case Span => if v.Str? then Str(Duration.DecodeDuration(v.s)) else v
    case Ean => if v.Str? then Str(Barcode.DecodeEan(v.s)) else v
    case Integer => FromBase62(LoadText(c, v))
    case Boolean => ToBool(LoadText(c, v))
    case StringArray => ToStrings(c, LoadText(c, v))
    case IntegerArray => ToNumbers(c, LoadText(c, v))
    case Plain => LoadText(c, v)
  }

  // The form a field comes back in: a duration in designators, a UUID in lower case with dashes.
  function Canonical(kind: Kind, v: FieldValue): FieldValue
    requires Validated(kind, v)
  {
    if v.Null? then v
    else
      match kind
      case Uuid => Str(FixedWidth.Dashed(FixedWidth.UuidHex(v.s)))
      case Span => Str(Duration.Designators(v.n))
      case _ => v
  }

  // The exact domain of each kind.
  ghost predicate InDomain(c: Context, kind: Kind, v: FieldValue)
    requires Validated(kind, v)
  {
    if v.Null? then !kind.Boolean?
    else
      match kind
      case Semver =>
        var x := PackedFields.ParseVersion(v.s);
        x.Some? && x.value.minor <= 999 && x.value.patch <= 999
      case Phone => |v.s| > 1 && v.s[1] != '0'
      case Span => !Duration.InPBand(v.n)
      case Ean => !(|v.s| >= 12 && Barcode.IsCodeText(Barcode.EncodeEan(v.s)))
      case StringArray => v.xs != [""]
          && (FromArray(v.xs, c.sep) == "[object Object]" || !LooksJson(c, FromArray(v.xs, c.sep)))
      case Plain => v.Str? ==> v.s != "[object Object]" && !LooksJson(c, v.s)
      case _ => true
  }

  lemma {:induction false} NumbersKnown(ns: seq<Option<int>>)
    requires forall i | 0 <= i < |ns| :: ns[i].Some?
    ensures Known(Numbers(ns)) == ns
  {
    if ns != [] {
      NumbersKnown(ns[1..]);
      assert [Some(ns[0].value)] + ns[1..] == ns;
    }
  }

  // Texts that start with a digit or a minus sign, or are empty, pass the generic branches untouched.
  ghost predicate PassesThrough(s: string) {
    s == "" || s[0] == '-' || ValueOf(s[0]) < 62
  }

  lemma Passes(c: Context, s: string)
    requires PassesThrough(s)
    ensures StoreText(s) == Str(s) && LoadText(c, Str(s)) == Str(s)
  {
    assert "[object Object]"[0] == '[';
  }

  lemma NumberTextsPass(ns: seq<int>, sep: char)
    ensures PassesThrough(FromArrayOfNumbers(ns, sep))
  {
    if ns != [] {
      PrintIntStart(ns[0]);
    }
  }

  lemma PrintIntStart(z: int)
    ensures PrintInt(z, 62) != "" && PassesThrough(PrintInt(z, 62))
  {
    PrintShape(if z < 0 then -z else z, 62);
  }

  lemma HookedRoundTrip(c: Context, kind: Kind, v: FieldValue)
    requires ValidContext(c) && Validated(kind, v) && !v.Null?
    requires kind.Integer? || kind.Boolean? || kind.IntegerArray?
    ensures Load(c, kind, Store(c, kind, v)) == v
  {
    match kind
    case Integer =>
      PrintIntStart(v.n);
      Passes(c, PrintInt(v.n, 62));
      ReadPrint(v.n, 62);
    case Boolean =>
      Passes(c, "1");
      Passes(c, "0");
    case IntegerArray =>
      var ns := Numbers(v.ns);
      NumberTextsPass(ns, c.sep);
      Passes(c, FromArrayOfNumbers(ns, c.sep));
      NumberArrayRoundTrip(ns, c.sep);
      NumbersKnown(v.ns);
  }

  lemma StringsRoundTrip(c: Context, xs: seq<string>)
    requires ValidContext(c)
    ensures ToStrings(c, LoadText(c, StoreText(FromArray(xs, c.sep)))) == Strs(xs)
        <==> xs != [""] && (FromArray(xs, c.sep) == "[object Object]" || !LooksJson(c, FromArray(xs, c.sep)))
  {
    var text := FromArray(xs, c.sep);
    StringArrayRoundTrip(xs, c.sep);
    StoredTextRoundTrip("[object Object]", c.sep);
  }

  /** What is stored for a field of hexadecimal digits or a network: their numbers in base 62, at
      fixed width. */
  lemma DigitsStored(c: Context, kind: Kind, v: FieldValue)
    requires Validated(kind, v) && !v.Null? && (kind.Uuid? || kind.Mac? || kind.Cidr? || kind.Color?)
    ensures Store(c, kind, v).Str? && IsNumeral(Store(c, kind, v).s, 62)
    ensures var s := Store(c, kind, v).s;
      match kind
      case Uuid =>
        var hex := FixedWidth.UuidHex(v.s);
        && |s| == 24
        && Value(s[..6], 62) == Value(hex[..8], 16) && Value(s[6..12], 62) == Value(hex[8..16], 16)
        && Value(s[12..18], 62) == Value(hex[16..24], 16) && Value(s[18..], 62) == Value(hex[24..], 16)
      case Mac => |s| == 9 && Value(s, 62) == Value(FixedWidth.MacHex(v.s), 16)
      case Cidr =>
        var n := FixedWidth.ParseCidr(v.s);
        && n.Some? && |s| == 7 && n.value.prefix <= 32 && s[6] == DigitChar(n.value.prefix)
        && Value(s[..6], 62) == ((n.value.a * 256 + n.value.b) * 256 + n.value.c) * 256 + n.value.d
      case Color => |s| == 5 && v.s != "" && Value(s, 62) == Value(v.s[1..], 16)
      case _ => true
  {
    match kind
    case Uuid => FixedWidth.UuidStored(v.s);
    case Mac => FixedWidth.MacMeaning(v.s, 0);
    case Cidr => NetworkStored(v.s);
    case Color => FixedWidth.ColorMeaning(v.s, 0);
    case _ =>
  }

  lemma NetworkStored(v: string)
    requires FixedWidth.ValidateCidr(v) == Some(v)
    ensures var n, s := FixedWidth.ParseCidr(v).value, FixedWidth.EncodeCidr(v);
      && |s| == 7 && IsNumeral(s, 62) && n.prefix <= 32 && s[6] == DigitChar(n.prefix)
      && Value(s[..6], 62) == ((n.a * 256 + n.b) * 256 + n.c) * 256 + n.d
  {
    var n := FixedWidth.ParseCidr(v).value;
    FixedWidth.CidrStored(n);
    FixedWidth.CidrJoined(Print(n.a, 10), Print(n.b, 10), Print(n.c, 10), Print(n.d, 10), Print(n.prefix, 10));
  }

  /** What is stored for a field that is one number: its numeral without leading zeros, a barcode
      with a character for its length in front. */
  lemma NumberStored(c: Context, kind: Kind, v: FieldValue)
    requires Validated(kind, v) && !v.Null?
    requires kind.TimeOfDay? || kind.Semver? || kind.Phone? || kind.Span? || kind.Ean? || kind.Integer?
    ensures Store(c, kind, v).Str?
    ensures var s := Store(c, kind, v).s;
      match kind
      case TimeOfDay =>
        var t := PackedFields.ParseTime(v.s);
        && t.Some? && IsCanonical(s, 62)
        && Value(s, 62) == t.value.h * 3600000 + t.value.m * 60000 + t.value.s * 1000 + t.value.ms
      case Semver =>
        var x := PackedFields.ParseVersion(v.s);
        && x.Some? && IsCanonical(s, 62)
        && Value(s, 62) == x.value.major * 1000000 + x.value.minor * 1000 + x.value.patch
      case Phone => v.s != "" && IsCanonical(s, 62) && Value(s, 62) == Value(v.s[1..], 10)
      case Span => IsCanonical(s, 62) && Value(s, 62) == v.n
      case Ean =>
        && s != "" && IsCanonical(s[1..], 62) && Value(s[1..], 62) == Value(v.s, 10)
        && s[0] == (if |v.s| == 8 then '0' else if |v.s| == 13 then '1' else if |v.s| == 12 then '2' else '3')
      case Integer => Read(s, 62) == Some(v.n)
      case _ => true
  {
    match kind
    case TimeOfDay => TimeNumber(v.s);
    case Semver => VersionNumber(v.s);
    case Phone => PhoneNumber(v.s);
    case Span => SpanNumber(v.n);
    case Ean => CodeNumber(v.s);
    case Integer => IntegerNumber(c, v.n);
    case _ =>
  }

  lemma SpanNumber(ms: nat)
    ensures IsCanonical(Duration.EncodeDuration(ms), 62) && Value(Duration.EncodeDuration(ms), 62) == ms
  {
    PrintShape(ms, 62);
    ValuePrint(ms, 62);
  }

  lemma CodeNumber(v: string)
    requires Barcode.ValidateEan(v) == Some(v)
    ensures var s := Barcode.EncodeEan(v);
      && s != "" && IsCanonical(s[1..], 62) && Value(s[1..], 62) == Value(v, 10)
      && s[0] == (if |v| == 8 then '0' else if |v| == 13 then '1' else if |v| == 12 then '2' else '3')
  {
    Barcode.EanStored(v);
  }

  lemma IntegerNumber(c: Context, z: int)
    ensures StoreText(PrintInt(z, 62)) == Str(PrintInt(z, 62)) && Read(PrintInt(z, 62), 62) == Some(z)
  {
    PrintIntStart(z);
    Passes(c, PrintInt(z, 62));
    ReadPrint(z, 62);
  }

  lemma TimeNumber(v: string)
    requires PackedFields.ValidateTime(v) == Some(v)
    ensures var t := PackedFields.ParseTime(v).value;
      && IsCanonical(PackedFields.EncodeTime(v), 62)
      && Value(PackedFields.EncodeTime(v), 62) == t.h * 3600000 + t.m * 60000 + t.s * 1000 + t.ms
  {
    PackedFields.StoredTotal(v);
  }

  lemma VersionNumber(v: string)
    requires PackedFields.ValidateSemver(v) == Some(v)
    ensures PackedFields.ParseVersion(v).Some?
    ensures var x, s := PackedFields.ParseVersion(v).value, PackedFields.EncodeSemver(v);
      IsCanonical(s, 62) && Value(s, 62) == x.major * 1000000 + x.minor * 1000 + x.patch
  {
    PackedFields.SemverValidated(v);
    PrintShape(PackedFields.Packed(PackedFields.ParseVersion(v).value), 62);
    ValuePrint(PackedFields.Packed(PackedFields.ParseVersion(v).value), 62);
  }

  lemma PhoneNumber(v: string)
    requires PackedFields.ValidatePhone(v) == Some(v)
    ensures v != "" && IsCanonical(PackedFields.EncodePhone(v), 62)
    ensures Value(PackedFields.EncodePhone(v), 62) == Value(v[1..], 10)
  {
    PackedFields.PhoneValidated(v);
    PackedFields.PhoneMeaning(v);
    PrintShape(Value(v[1..], 10), 62);
    ValuePrint(Value(v[1..], 10), 62);
  }

  /** The other fields: truth values as "1" and "0", a missing one as "0" too, so that it comes back
      false; lists as their stored texts; plain values as they are. The one text the generic branch
      rewrites is "[object Object]". */
  lemma OthersStored(c: Context, kind: Kind, v: FieldValue)
    requires Validated(kind, v)
    ensures v.Null? && !kind.Boolean? ==> Store(c, kind, v) == Null
    ensures v.Null? && kind.Boolean? ==>
              Store(c, kind, v) == Str("0") && Load(c, kind, Store(c, kind, v)) == Bool(false)
    ensures v.Bool? && kind.Boolean? ==> Store(c, kind, v) == Str(if v.b then "1" else "0")
    ensures v.Strs? && FromArray(v.xs, c.sep) != "[object Object]" ==>
              Store(c, kind, v) == Str(FromArray(v.xs, c.sep))
    ensures v.Nums? ==> Store(c, kind, v) == Str(FromArrayOfNumbers(Numbers(v.ns), c.sep))
    ensures kind.Plain? && v != Str("[object Object]") ==> Store(c, kind, v) == v
    ensures kind.Plain? && v == Str("[object Object]") ==> Store(c, kind, v) == Str("{}")
  {
    Passes(c, "0");
    Passes(c, "1");
    if v.Nums? {
      NumberTextsPass(Numbers(v.ns), c.sep);
      Passes(c, FromArrayOfNumbers(Numbers(v.ns), c.sep));
    }
  }

  /** What becomes of any stored text, written by the code or not: an object or array that parses
      is JSON and "[object Object]" an empty object; of the others four are read as true and the
      rest as false, an integer is read where there is one, and plain text stays. */
  lemma AnyTextRead(c: Context, t: string)
    requires c.isJson("{}")
    ensures var json := t != "" && (t[0] == '{' || t[0] == '[') && c.isJson(t);
      && Load(c, Plain, Str(t)) == (if t == "[object Object]" then Json("{}") else if json then Json(t) else Str(t))
      && Load(c, Boolean, Str(t)) == Bool(t in {"true", "1", "yes", "y"})
      && Load(c, Integer, Str(t)) ==
           if t == "" then Str("") else if Read(t, 62).Some? then Num(Read(t, 62).value) else Undefined
  {
    assert "[object Object]"[0] == '[' && "true"[0] == 't' && "yes"[0] == 'y';
    if t != "" && (t[0] == '{' || t[0] == '[') {
      assert ValueOf(t[0]) == 62;
    }
  }

  /** What validation left in a field comes back in canonical form exactly when it lies in the
      domain of its kind. */
  lemma FieldRoundTrip(c: Context, kind: Kind, v: FieldValue)
    requires ValidContext(c) && Validated(kind, v)
    ensures Load(c, kind, Store(c, kind, v)) == Canonical(kind, v) <==> InDomain(c, kind, v)
  {
    if v.Null? {
      NullRoundTrip(c, kind);
    } else {
      match kind
      case Uuid => FixedWidth.UuidRoundTrip(v.s);
      case Mac => FixedWidth.MacRoundTrip(v.s);
      case Cidr => FixedWidth.CidrRoundTrip(v.s);
      case Color => FixedWidth.ColorRoundTrip(v.s);
      case TimeOfDay => PackedFields.TimeValidated(v.s);
      case Semver => PackedFields.SemverValidated(v.s);
      case Phone => PackedFields.PhoneValidated(v.s);
      case Span => Duration.DurationRoundTrip(v.n);
      case Ean => Barcode.EanRoundTrip(v.s);
      case Integer => HookedRoundTrip(c, kind, v);
      case Boolean => HookedRoundTrip(c, kind, v);
      case IntegerArray => HookedRoundTrip(c, kind, v);
      case StringArray => StringsRoundTrip(c, v.xs);
      case Plain =>
    }
  }

  lemma NullRoundTrip(c: Context, kind: Kind)
    ensures Load(c, kind, Store(c, kind, Null)) == Null <==> !kind.Boolean?
  {
  }
}

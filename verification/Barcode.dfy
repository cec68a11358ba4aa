/** Barcode fields (src/schema.class.ts): a length prefix followed by the number in base 62. */
module Barcode {
  import opened Options
  import opened Numerals

  // /^\d{8,14}$/
  predicate IsCodeText(v: string) {
    8 <= |v| <= 14 && IsNumeral(v, 10)
  }

  function Prefix(length: nat): Option<char> {
    if length == 8 then Some('0')
    else if length == 12 then Some('2')
    else if length == 13 then Some('1')
    else if length == 14 then Some('3')
    else None
  }

  function TargetLength(prefix: char): nat {
    if prefix == '0' then 8 else if prefix == '1' then 13 else if prefix == '2' then 12 else 14
  }

  function EncodeEan(v: string): string {
    if IsCodeText(v) then
      match Prefix(|v|)
      case Some(p) => [p] + Print(Value(v, 10), 62)
      case None => v
    else v
  }

  function DecodeEan(s: string): string {
    if s != "" && '0' <= s[0] <= '3' && !IsCodeText(s)
    then PadStart(ToText(Read(s[1..], 62), 10), TargetLength(s[0]))
    else s
  }

  // The validator: a text of a known length as it is, a number printed to at least 13 digits.
  function ValidateEan(v: string): Option<string> {
    if IsCodeText(v) && Prefix(|v|).Some? then Some(v) else None
  }

  function ValidateEanNumber(n: nat): Option<string> {
    if |Print(n, 10)| <= 14 then Some(PadStart(Print(n, 10), 13)) else None
  }

  /** The validator takes a code exactly when it is 8, 12, 13 or 14 decimal digits, and leaves it
      as it is. The stored text: one character for the length, then the number in base 62; a code of
      another length is stored as it is. */
  lemma EanStored(v: string)
    ensures ValidateEan(v) == if |v| in {8, 12, 13, 14} && IsNumeral(v, 10) then Some(v) else None
    ensures |v| in {8, 12, 13, 14} && IsNumeral(v, 10) ==>
              var s := EncodeEan(v);
              && |s| >= 2 && IsCanonical(s[1..], 62) && Value(s[1..], 62) == Value(v, 10)
              && s[0] == (if |v| == 8 then '0' else if |v| == 13 then '1' else if |v| == 12 then '2' else '3')
    ensures !(|v| in {8, 12, 13, 14} && IsNumeral(v, 10)) ==> EncodeEan(v) == v
  {
    PrintShape(Value(v, 10), 62);
    ValuePrint(Value(v, 10), 62);
    if IsCodeText(v) && Prefix(|v|).Some? {
      assert EncodeEan(v)[1..] == Print(Value(v, 10), 62);
    }
  }

  lemma CodePowers()
    ensures Pow(10, 8) < Pow(62, 5)
    ensures Pow(10, 12) < Pow(62, 8) && Pow(10, 13) < Pow(62, 8) && Pow(10, 14) < Pow(62, 8)
  {
    assert Pow(10, 8) == 100000000 && Pow(62, 5) == 916132832;
    assert Pow(10, 12) == 1000000000000 && Pow(10, 13) == 10000000000000 && Pow(10, 14) == 100000000000000;
    assert Pow(62, 8) == 218340105584896;
  }

  lemma StoredLength(v: string)
    requires IsCodeText(v) && Prefix(|v|).Some?
    ensures |v| == 8 ==> |EncodeEan(v)| <= 6
    ensures |v| != 8 ==> |EncodeEan(v)| <= 9
  {
    CodePowers();
    ValueBelowPow(v, 10);
    PrintLength(Value(v, 10), 62, if |v| == 8 then 5 else 8);
  }

  /** A barcode comes back unchanged, leading zeros included, exactly unless it has 12, 13 or 14
      digits and its stored text is itself 8 to 14 decimal digits. Eight digits always come back,
      and so do the lengths without a prefix. */
  lemma EanRoundTrip(v: string)
    requires IsCodeText(v)
    ensures DecodeEan(EncodeEan(v)) == v <==> !(|v| >= 12 && IsCodeText(EncodeEan(v)))
    ensures |v| < 12 ==> DecodeEan(EncodeEan(v)) == v
  {
    if Prefix(|v|).Some? {
      var s, n := EncodeEan(v), Value(v, 10);
      StoredLength(v);
      assert s[1..] == Print(n, 62);
      ReadPrint(n, 62);
      PaddedInverse(v, 10);
    }
  }

  /** What the validator makes of a number is a barcode text with a prefix, for the same number;
      it takes every number of at most 14 digits. */
  lemma EanNumberValidated(n: nat)
    ensures ValidateEanNumber(n).Some? <==> n < Pow(10, 14)
    ensures ValidateEanNumber(n).Some? ==> ValidateEan(ValidateEanNumber(n).value) == ValidateEanNumber(n)
    ensures ValidateEanNumber(n).Some? ==>
              && Value(ValidateEanNumber(n).value, 10) == n
              && |ValidateEanNumber(n).value| == if n < Pow(10, 13) then 13 else 14
  {
    PrintLength(n, 10, 13);
    PrintLength(n, 10, 14);
    PrintShape(n, 10);
    ValuePrint(n, 10);
    PadKeeps(Print(n, 10), 13);
  }

  lemma PadKeeps(s: string, k: nat)
    requires IsNumeral(s, 10)
    ensures IsNumeral(PadStart(s, k), 10) && Value(PadStart(s, k), 10) == Value(s, 10)
  {
    if |s| < k {
      ValueZerosPrefix(k - |s|, s, 10);
    }
  }

  /** Such barcodes exist: if seven decimal digits are canonical in base 62, the number they
      stand for there, written out in 13 digits, is stored as '1' and those digits and lost. */
  lemma EanCollision(t: string, v: string)
    requires |t| == 7 && t[0] != '0' && IsNumeral(t, 10) && v == PadStart(Print(Value(t, 62), 10), 13)
    ensures |v| == 13 && IsCodeText(v) && EncodeEan(v) == "1" + t
    ensures DecodeEan(EncodeEan(v)) == "1" + t != v
  {
    ValueBelowPow(t, 62);
    assert Pow(62, 7) == 3521614606208 && Pow(10, 13) == 10000000000000;
    PaddedRoundTrip(Value(t, 62), 10, 13);
    PrintOfCanonical(t, 62);
  }
}

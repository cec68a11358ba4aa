/** Positional numerals over the alphabet 0-9, a-z, A-Z (src/concerns/base62.ts).
    The key alphabet of `encodeKey` is its first 36 characters and the decimal and
    hexadecimal digits its first 10 and 16, so one family covers base 62, 36, 16 and 10. */
module Numerals {
  import opened Options

  type Radix = b: nat | 2 <= b <= 62 witness 10

  const ALPHABET: string := "0123456789" + "abcdefghijklmnopqrstuvwxyz" + "ABCDEFGHIJKLMNOPQRSTUVWXYZ"

  // The place of a character in the alphabet; 62 for a character outside it.
  function ValueOf(c: char): (v: nat)
    ensures v <= 62
  {
    if '0' <= c <= '9' then c as int - 48
    else if 'a' <= c <= 'z' then c as int - 87
    else if 'A' <= c <= 'Z' then c as int - 29
    else 62
  }

  function DigitChar(v: nat): (c: char)
    requires v < 62
    ensures ValueOf(c) == v
  {
    if v < 10 then (v + 48) as char
    else if v < 36 then (v + 87) as char
    else (v + 29) as char
  }

  lemma DigitCharInverse(c: char)
    requires ValueOf(c) < 62
    ensures DigitChar(ValueOf(c)) == c
  {
  }

  /** The digits are the characters of the alphabet in its order. */
  lemma AlphabetDigit(v: nat)
    requires v < 62
    ensures |ALPHABET| == 62
    ensures DigitChar(v) == ALPHABET[v] && ValueOf(ALPHABET[v]) == v
  {
    if v < 10 {
      assert DigitChar(v) == "0123456789"[v];
    } else if v < 36 {
      assert DigitChar(v) == "abcdefghijklmnopqrstuvwxyz"[v - 10];
    } else {
      assert DigitChar(v) == "ABCDEFGHIJKLMNOPQRSTUVWXYZ"[v - 36];
    }
  }

  /** A character stands for its place in the alphabet, and no other character for a digit. */
  lemma AlphabetPlace(c: char)
    ensures |ALPHABET| == 62
    ensures ValueOf(c) == 62 <==> c !in ALPHABET
    ensures ValueOf(c) < 62 ==> ALPHABET[ValueOf(c)] == c
  {
    if ValueOf(c) < 62 {
      AlphabetDigit(ValueOf(c));
    } else if c in ALPHABET {
      var v :| 0 <= v < |ALPHABET| && ALPHABET[v] == c;
      AlphabetDigit(v);
    }
  }

  // Every character is a digit of the radix.
  predicate IsNumeral(s: string, b: Radix) {
    forall i | 0 <= i < |s| :: ValueOf(s[i]) < b
  }

  // No leading zero, and not empty: the texts `Print` writes.
  ghost predicate IsCanonical(s: string, b: Radix) {
    IsNumeral(s, b) && s != [] && (|s| > 1 ==> s[0] != '0')
  }

  function Pow(b: nat, k: nat): (p: nat)
  {
    if k == 0 then 1 else b * Pow(b, k - 1)
  }

  lemma {:induction false} PowPositive(b: Radix, k: nat)
    ensures Pow(b, k) >= 1
  {
    if k > 0 {
      PowPositive(b, k - 1);
      assert b * Pow(b, k - 1) >= b * 1;
    }
  }

  // The number a digit string stands for, most significant digit first.
  function Value(s: string, b: Radix): (n: nat)
  {
    if s == [] then 0 else Value(s[..|s| - 1], b) * b + ValueOf(s[|s| - 1])
  }

  function Print(n: nat, b: Radix): (s: string)
    decreases n
  {
    if n < b then [DigitChar(n)]
    else
      DivSmaller(n, b);
      Print(n / b, b) + [DigitChar(n % b)]
  }

  lemma DivSmaller(n: nat, b: Radix)
    requires n >= b
    ensures 1 <= n / b < n
  {
    assert n == b * (n / b) + n % b;
    assert n / b >= 1;
    assert b * (n / b) >= 2 * (n / b);
  }

  lemma DivMod(n: nat, b: nat)
    requires b > 0
    ensures (n / b) * b + n % b == n && n % b < b
  {
  }

  lemma DivModUnique(q: nat, r: nat, b: nat)
    requires r < b
    ensures (q * b + r) / b == q && (q * b + r) % b == r
  {
    var n := q * b + r;
    var q', r' := n / b, n % b;
    DivMod(n, b);
    if q > q' {
      MulLe(q' + 1, q, b);
    } else if q < q' {
      MulLe(q + 1, q', b);
    }
  }

  /** What `Print` writes is canonical: digits only, never empty, and the only one that
      starts with 0 is "0" itself. */
  lemma {:induction false} PrintShape(n: nat, b: Radix)
    ensures IsCanonical(Print(n, b), b)
    ensures Print(n, b)[0] == '0' <==> n == 0
    decreases n
  {
    if n >= b {
      DivSmaller(n, b);
      PrintShape(n / b, b);
    } else {
      assert Print(n, b) == [DigitChar(n)];
      assert DigitChar(n) == '0' <==> n == 0;
    }
  }

  lemma ValueSnoc(front: string, c: char, b: Radix)
    ensures Value(front + [c], b) == Value(front, b) * b + ValueOf(c)
  {
    assert (front + [c])[..|front|] == front;
  }

  lemma ValueSplit(s: string, b: Radix)
    requires s != []
    ensures s == s[..|s| - 1] + [s[|s| - 1]]
    ensures Value(s, b) == Value(s[..|s| - 1], b) * b + ValueOf(s[|s| - 1])
  {
  }

  /** Digits in front count b^k times as much as the k digits after them. */
  lemma {:induction false} ValueConcat(s: string, t: string, b: Radix)
    ensures Value(s + t, b) == Value(s, b) * Pow(b, |t|) + Value(t, b)
  {
    if t == "" {
      assert s + t == s;
    } else {
      var front, last := t[..|t| - 1], t[|t| - 1];
      ValueConcat(s, front, b);
      assert s + t == (s + front) + [last];
      ValueSnoc(s + front, last, b);
      ShiftUp(Value(s, b), Pow(b, |front|), Value(front, b), ValueOf(last), b);
    }
  }

  lemma ShiftUp(v: nat, p: nat, w: nat, d: nat, b: nat)
    ensures (v * p + w) * b + d == v * (b * p) + (w * b + d)
  {
  }

  lemma ValueDigit(c: char, b: Radix)
    ensures Value([c], b) == ValueOf(c)
  {
    ValueSnoc([], c, b);
    assert [] + [c] == [c];
  }

  /** Reading what was printed gives the number back, in every radix. */
  lemma {:induction false} ValuePrint(n: nat, b: Radix)
    ensures Value(Print(n, b), b) == n
    decreases n
  {
    if n >= b {
      DivSmaller(n, b);
      ValuePrint(n / b, b);
      ValueSnoc(Print(n / b, b), DigitChar(n % b), b);
      DivMod(n, b);
    } else {
      ValueDigit(DigitChar(n), b);
    }
  }

  lemma {:induction false} ValueZeros(s: string, b: Radix)
    requires IsCanonical(s, b) && |s| > 1
    ensures Value(s, b) >= b
  {
    var front := s[..|s| - 1];
    ValueSplit(s, b);
    if |front| == 1 {
      assert front == [s[0]];
      ValueDigit(s[0], b);
      DigitCharInverse(s[0]);
    } else {
      ValueZeros(front, b);
    }
    MulLe(1, Value(front, b), b);
  }

  /** Printing what was read gives the text back exactly when the text has no leading zero. */
  lemma {:induction false} PrintValue(s: string, b: Radix)
    requires IsNumeral(s, b)
    ensures Print(Value(s, b), b) == s <==> IsCanonical(s, b)
  {
    if IsCanonical(s, b) {
      PrintOfCanonical(s, b);
    } else if Print(Value(s, b), b) == s {
      PrintShape(Value(s, b), b);
    }
  }

  lemma {:induction false} PrintOfCanonical(s: string, b: Radix)
    requires IsCanonical(s, b)
    ensures Print(Value(s, b), b) == s
  {
    var front, last := s[..|s| - 1], s[|s| - 1];
    DigitCharInverse(last);
    if |s| == 1 {
      assert front == [];
    } else {
      PrintOfCanonical(front, b);
      ValueZeros(s, b);
      ValueSplit(s, b);
      var n := Value(s, b);
      DivModUnique(Value(front, b), ValueOf(last), b);
      assert n >= b && Print(n, b) == Print(n / b, b) + [DigitChar(n % b)];
    }
  }

  /** The leading digit and the length bracket the number. */
  lemma {:induction false} ValueBounds(s: string, b: Radix)
    requires IsNumeral(s, b) && s != []
    ensures ValueOf(s[0]) * Pow(b, |s| - 1) <= Value(s, b) < (ValueOf(s[0]) + 1) * Pow(b, |s| - 1)
  {
    var front := s[..|s| - 1];
    if |s| == 1 {
      assert s == [s[0]];
      ValueDigit(s[0], b);
    } else {
      ValueBounds(front, b);
      ValueSplit(s, b);
      Widen(ValueOf(s[0]), Pow(b, |s| - 2), Value(front, b), ValueOf(s[|s| - 1]), b);
    }
  }

  lemma Widen(d: nat, p: nat, v: nat, r: nat, b: Radix)
    requires d * p <= v < (d + 1) * p && r < b
    ensures d * (b * p) <= v * b + r < (d + 1) * (b * p)
  {
    MulLe(d * p, v, b);
    MulLe(v + 1, (d + 1) * p, b);
    assert d * (b * p) == (d * p) * b && (d + 1) * (b * p) == ((d + 1) * p) * b;
  }

  lemma MulLe(x: int, y: int, m: nat)
    requires x <= y
    ensures x * m <= y * m
  {
  }

  lemma {:induction false} PowMono(b: Radix, j: nat, k: nat)
    requires j <= k
    ensures Pow(b, j) <= Pow(b, k)
    decreases k
  {
    if j < k {
      PowMono(b, j, k - 1);
      MulLe(1, b, Pow(b, k - 1));
    }
  }

  lemma ValueBelowPow(s: string, b: Radix)
    requires IsNumeral(s, b)
    ensures Value(s, b) < Pow(b, |s|)
  {
    if s != [] {
      ValueBounds(s, b);
      MulLe(ValueOf(s[0]) + 1, b, Pow(b, |s| - 1));
    }
  }

  /** A positive number is printed in at most k digits exactly when it is below b^k. */
  lemma PrintLength(n: nat, b: Radix, k: nat)
    requires k >= 1
    ensures |Print(n, b)| <= k <==> n < Pow(b, k)
  {
    var s := Print(n, b);
    PrintShape(n, b);
    ValuePrint(n, b);
    ValueBelowPow(s, b);
    if |s| <= k {
      PowMono(b, |s|, k);
    } else {
      ValueBounds(s, b);
      PowMono(b, k, |s| - 1);
      DigitCharInverse(s[0]);
      assert ValueOf(s[0]) >= 1;
      MulLe(1, ValueOf(s[0]), Pow(b, |s| - 1));
    }
  }

  /** The printed text starts with digit d exactly when the number lies in some [d*b^k, (d+1)*b^k). */
  lemma LeadingDigit(n: nat, b: Radix, d: nat)
    requires 1 <= d < b
    ensures Print(n, b)[0] == DigitChar(d) <==> exists k: nat :: InBand(n, b, d, k)
  {
    var s := Print(n, b);
    PrintShape(n, b);
    ValuePrint(n, b);
    ValueBounds(s, b);
    if s[0] == DigitChar(d) {
      assert InBand(n, b, d, |s| - 1);
    }
    if k: nat :| InBand(n, b, d, k) {
      BandsDisjoint(n, b, d, k, ValueOf(s[0]), |s| - 1);
      DigitCharInverse(s[0]);
    }
  }

  ghost predicate InBand(n: nat, b: Radix, d: nat, k: nat) {
    d * Pow(b, k) <= n < (d + 1) * Pow(b, k)
  }

  lemma BandsDisjoint(n: nat, b: Radix, d: nat, k: nat, e: nat, j: nat)
    requires 1 <= d < b && e < b && InBand(n, b, d, k) && InBand(n, b, e, j)
    requires j > 0 ==> e >= 1
    ensures d == e && k == j
  {
    PowPositive(b, k);
    PowPositive(b, j);
    if k < j {
      PowMono(b, k + 1, j);
      MulLe(d + 1, b, Pow(b, k));
      MulLe(1, e, Pow(b, j));
    } else if j < k {
      PowMono(b, j + 1, k);
      MulLe(e + 1, b, Pow(b, j));
      MulLe(1, d, Pow(b, k));
    } else if d < e {
      MulLe(d + 1, e, Pow(b, k));
    } else if e < d {
      MulLe(e + 1, d, Pow(b, k));
    }
  }

  // The digit of n at b^i.
  ghost function DigitOf(n: nat, b: Radix, i: nat): (d: nat)
    ensures d < b
  {
    PowPositive(b, i);
    (n / Pow(b, i)) % b
  }

  lemma DivTwice(n: nat, b: nat, p: nat)
    requires b > 0 && p > 0
    ensures b * p > 0 && n / (b * p) == (n / b) / p
  {
    var q, r := n / b, n % b;
    DivMod(n, b);
    var q', r' := q / p, q % p;
    DivMod(q, p);
    MulLe(r' + 1, p, b);
    ShiftUp(q', p, r', r, b);
    DivModUnique(q', r' * b + r, b * p);
  }

  /** The character with i characters after it is the digit at b^i. */
  lemma {:induction false} DigitAt(s: string, b: Radix, i: nat)
    requires IsNumeral(s, b) && i < |s|
    ensures s[|s| - 1 - i] == DigitChar(DigitOf(Value(s, b), b, i))
  {
    var front, last := s[..|s| - 1], s[|s| - 1];
    ValueSplit(s, b);
    DivModUnique(Value(front, b), ValueOf(last), b);
    if i == 0 {
      DigitCharInverse(last);
    } else {
      DigitAt(front, b, i - 1);
      PowPositive(b, i - 1);
      DivTwice(Value(s, b), b, Pow(b, i - 1));
    }
  }

  /** What is printed: the digits of the number, a single character of the alphabet below the
      radix, and a minus sign before the digits of a negative number. */
  lemma PrintedDigits(n: nat, b: Radix, i: nat)
    requires i < |Print(n, b)|
    ensures Print(n, b)[|Print(n, b)| - 1 - i] == DigitChar(DigitOf(n, b, i))
    ensures n < b ==> n < |ALPHABET| && Print(n, b) == [ALPHABET[n]]
    ensures n > 0 ==> PrintInt(0 - n, b) == "-" + Print(n, b)
  {
    PrintShape(n, b);
    ValuePrint(n, b);
    DigitAt(Print(n, b), b, i);
    if n < b {
      AlphabetDigit(n);
    }
  }

  /** What is read: NaN exactly when a character after the sign is no digit of the radix,
      otherwise the number of the given sign that has these digits. */
  lemma ReadDigits(text: string, negative: bool, b: Radix)
    requires negative || text == "" || text[0] != '-'
    ensures var r := Read(if negative then "-" + text else text, b);
      && (r.None? <==> exists i :: 0 <= i < |text| && ValueOf(text[i]) >= b)
      && (r.Some? ==>
          var n := if negative then 0 - r.value else r.value;
          0 <= n < Pow(b, |text|)
          && forall i: nat | i < |text| :: text[|text| - 1 - i] == DigitChar(DigitOf(n, b, i)))
  {
    assert negative ==> ("-" + text)[1..] == text;
    if IsNumeral(text, b) {
      ValueBelowPow(text, b);
      forall i: nat | i < |text|
        ensures text[|text| - 1 - i] == DigitChar(DigitOf(Value(text, b), b, i))
      {
        DigitAt(text, b, i);
      }
    }
  }

  // Fixed width: zeros on the left, as padStart writes them.

  function Zeros(k: nat): (s: string)
    ensures |s| == k && forall i | 0 <= i < k :: s[i] == '0'
  {
    seq(k, _ => '0')
  }

  function PadStart(s: string, k: nat): (p: string)
    ensures |p| == if |s| < k then k else |s|
  {
    if |s| < k then Zeros(k - |s|) + s else s
  }

  lemma {:induction false} ValueZerosPrefix(j: nat, s: string, b: Radix)
    ensures Value(Zeros(j) + s, b) == Value(s, b)
  {
    var p := Zeros(j) + s;
    if s == [] {
      if j > 0 {
        assert p[..|p| - 1] == Zeros(j - 1) + s;
        ValueZerosPrefix(j - 1, s, b);
      }
    } else {
      assert p[..|p| - 1] == Zeros(j) + s[..|s| - 1];
      ValueZerosPrefix(j, s[..|s| - 1], b);
    }
  }

  /** A number printed to fixed width k has exactly k digits and reads back, as long as it is below b^k. */
  lemma PaddedRoundTrip(n: nat, b: Radix, k: nat)
    requires k >= 1 && n < Pow(b, k)
    ensures IsNumeral(PadStart(Print(n, b), k), b)
    ensures |PadStart(Print(n, b), k)| == k
    ensures Value(PadStart(Print(n, b), k), b) == n
  {
    PrintLength(n, b, k);
    PrintShape(n, b);
    ValuePrint(n, b);
    if |Print(n, b)| < k {
      ValueZerosPrefix(k - |Print(n, b)|, Print(n, b), b);
    }
  }

  /** Any k-digit text is the fixed-width print of its value. */
  lemma {:induction false} PaddedInverse(s: string, b: Radix)
    requires IsNumeral(s, b) && s != []
    ensures PadStart(Print(Value(s, b), b), |s|) == s
  {
    if |s| > 1 && s[0] == '0' {
      PaddedInverse(s[1..], b);
      assert s == Zeros(1) + s[1..];
      ValueZerosPrefix(1, s[1..], b);
      var t := Print(Value(s, b), b);
      if |t| < |s| - 1 {
        assert Zeros(1) + (Zeros(|s| - 1 - |t|) + t) == Zeros(|s| - |t|) + t;
      } else {
        ValueBelowPow(s[1..], b);
        PrintLength(Value(s, b), b, |s| - 1);
      }
    } else {
      PrintOfCanonical(s, b);
    }
  }

  // How many digits a text starts with.

  function DigitPrefix(s: string, b: Radix): (n: nat)
    ensures n <= |s| && IsNumeral(s[..n], b)
    ensures n < |s| ==> ValueOf(s[n]) >= b
  {
    if s == "" || ValueOf(s[0]) >= b then 0
    else
      var n := DigitPrefix(s[1..], b);
      assert s[..1 + n] == [s[0]] + s[1..][..n];
      1 + n
  }

  lemma {:induction false} DigitPrefixOf(digits: string, rest: string, b: Radix)
    requires IsNumeral(digits, b) && (rest != "" ==> ValueOf(rest[0]) >= b)
    ensures DigitPrefix(digits + rest, b) == |digits|
    ensures (digits + rest)[..|digits|] == digits && (digits + rest)[|digits|..] == rest
  {
    if digits == "" {
      assert digits + rest == rest;
    } else {
      DigitPrefixOf(digits[1..], rest, b);
      assert (digits + rest)[1..] == digits[1..] + rest;
    }
  }

  // Signed texts and the reading of arbitrary text.

  function PrintInt(z: int, b: Radix): (s: string) {
    if z < 0 then "-" + Print(-z, b) else Print(z, b)
  }

  // None stands for NaN: some character is outside the alphabet.
  function Read(s: string, b: Radix): (r: Option<int>) {
    if s != [] && s[0] == '-' then
      (if IsNumeral(s[1..], b) then Some(0 - Value(s[1..], b)) else None)
    else if IsNumeral(s, b) then Some(Value(s, b)) else None
  }

  // n.toString(b), NaN included.
  function ToText(n: Option<int>, b: Radix): string {
    match n
    case None => "NaN"
    case Some(z) => PrintInt(z, b)
  }

  // What the base-62 encoder writes for any number: for NaN it is a word.
  function EncodeNumber(n: Option<int>): string {
    match n
    case None => "undefined"
    case Some(z) => PrintInt(z, 62)
  }

  lemma ReadNumeral(s: string, b: Radix)
    requires IsNumeral(s, b)
    ensures Read(s, b) == Some(Value(s, b))
  {
    assert ValueOf('-') == 62;
  }

  /** A w-digit text in radix b, stored as a k-digit text in base 62 and printed back to w
      digits, is the text again, as long as b^w does not exceed 62^k. */
  lemma RecodeRoundTrip(h: string, b: Radix, k: nat)
    requires IsNumeral(h, b) && h != [] && k >= 1 && Pow(b, |h|) <= Pow(62, k)
    ensures var stored := PadStart(Print(Value(h, b), 62), k);
      && |stored| == k && IsNumeral(stored, 62)
      && Read(stored, 62) == Some(Value(h, b))
      && PadStart(ToText(Read(stored, 62), b), |h|) == h
  {
    ValueBelowPow(h, b);
    PaddedRoundTrip(Value(h, b), 62, k);
    ReadNumeral(PadStart(Print(Value(h, b), 62), k), 62);
    PaddedInverse(h, b);
  }

  /** `decode` undoes `encode` (and `decodeKey` undoes `encodeKey`) on every integer, negative ones included. */
  lemma ReadPrint(z: int, b: Radix)
    ensures Read(PrintInt(z, b), b) == Some(z)
  {
    var n := if z < 0 then -z else z;
    PrintShape(n, b);
    ValuePrint(n, b);
    assert PrintInt(z, b) == if z < 0 then "-" + Print(n, b) else Print(n, b);
    assert ValueOf('-') == 62;
    if z < 0 {
      assert PrintInt(z, b)[1..] == Print(n, b);
    }
  }

  lemma PrintInjective(m: nat, n: nat, b: Radix)
    requires Print(m, b) == Print(n, b)
    ensures m == n
  {
    ValuePrint(m, b);
    ValuePrint(n, b);
  }

  // The loops of src/concerns/base62.ts.

  method Encode(z: int, b: Radix) returns (s: string)
    ensures s == PrintInt(z, b)
    decreases z < 0
  {
    if z == 0 {
      return [DigitChar(0)];
    }
    if z < 0 {
      s := Encode(-z, b);
      return "-" + s;
    }
    var n: nat := z;
    s := "";
    while n != 0
      invariant n == 0 ==> s == Print(z, b)
      invariant n > 0 ==> Print(n, b) + s == Print(z, b)
    {
      if n >= b {
        DivSmaller(n, b);
        assert Print(n / b, b) + ([DigitChar(n % b)] + s) == Print(n, b) + s;
      } else {
        assert n / b == 0 && n % b == n by { DivModUnique(0, n, b); }
      }
      s := [DigitChar(n % b)] + s;
      n := n / b;
    }
  }

  method Decode(s: string, b: Radix) returns (r: Option<int>)
    ensures r == Read(s, b)
  {
    var negative := s != "" && s[0] == '-';
    var str := if negative then s[1..] else s;
    assert Read(s, b) == if !IsNumeral(str, b) then None else if negative then Some(0 - Value(str, b))
        else Some(Value(str, b));
    var n: nat := 0;
    for i := 0 to |str|
      invariant IsNumeral(str[..i], b)
      invariant n == Value(str[..i], b)
    {
      var idx := ValueOf(str[i]);
      if idx >= b {
        return None;
      }
      ValueSnoc(str[..i], str[i], b);
      assert str[..i + 1] == str[..i] + [str[i]];
      n := n * b + idx;
    }
    assert str[..|str|] == str;
    r := Some(if negative then 0 - n else n);
  }
}

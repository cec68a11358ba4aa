// Splitting, joining and cleaning of strings, as the JavaScript methods of the same names do it.
module Texts {
  import opened Options
  import opened Numerals

  function Split(s: string, sep: char): (parts: seq<string>)
    ensures |parts| >= 1
  {
    if s == "" then [""]
    else if s[0] == sep then [""] + Split(s[1..], sep)
    else
      var rest := Split(s[1..], sep);
      [[s[0]] + rest[0]] + rest[1..]
  }

  function Join(parts: seq<string>, sep: char): string {
    if |parts| == 0 then ""
    else if |parts| == 1 then parts[0]
    else parts[0] + [sep] + Join(parts[1..], sep)
  }

  lemma {:induction false} SplitFirst(part: string, rest: string, sep: char)
    requires sep !in part
    ensures Split(part, sep) == [part]
    ensures Split(part + [sep] + rest, sep) == [part] + Split(rest, sep)
  {
    if part == "" {
      assert part + [sep] + rest == [sep] + rest;
      assert ([sep] + rest)[1..] == rest;
    } else {
      SplitFirst(part[1..], rest, sep);
      assert part == [part[0]] + part[1..];
      assert (part + [sep] + rest)[1..] == part[1..] + [sep] + rest;
    }
  }

  /** Splitting a join gives the parts back when none of them holds the separator. */
  lemma {:induction false} SplitJoin(parts: seq<string>, sep: char)
    requires |parts| >= 1 && forall i | 0 <= i < |parts| :: sep !in parts[i]
    ensures Split(Join(parts, sep), sep) == parts
  {
    SplitFirst(parts[0], Join(parts[1..], sep), sep);
    if |parts| > 1 {
      SplitJoin(parts[1..], sep);
    }
  }

  lemma {:induction false} JoinSplit(s: string, sep: char)
    ensures Join(Split(s, sep), sep) == s
    ensures forall i | 0 <= i < |Split(s, sep)| :: sep !in Split(s, sep)[i]
  {
    if s != "" {
      JoinSplit(s[1..], sep);
      var rest := Split(s[1..], sep);
      if s[0] == sep {
        assert ([""] + rest)[1..] == rest;
      } else if |rest| > 1 {
        assert Split(s, sep)[1..] == rest[1..];
      }
    }
  }

  // s.replace(/[chars]/g, '')
  function Remove(s: string, chars: set<char>): string {
    if s == "" then ""
    else if s[0] in chars then Remove(s[1..], chars)
    else [s[0]] + Remove(s[1..], chars)
  }

  lemma {:induction false} RemoveConcat(s: string, t: string, chars: set<char>)
    ensures Remove(s + t, chars) == Remove(s, chars) + Remove(t, chars)
  {
    if s == "" {
      assert s + t == t;
    } else {
      RemoveConcat(s[1..], t, chars);
      assert s + t == [s[0]] + (s[1..] + t);
      RemoveCons(s[0], s[1..] + t, chars);
      ConcatAssoc([s[0]], Remove(s[1..], chars), Remove(t, chars));
    }
  }

  lemma ConcatAssoc(a: string, b: string, c: string)
    ensures a + (b + c) == a + b + c
  {
  }

  lemma RemoveCons(c: char, s: string, chars: set<char>)
    ensures Remove([c] + s, chars) == if c in chars then Remove(s, chars) else [c] + Remove(s, chars)
  {
    assert ([c] + s)[1..] == s;
  }

  lemma {:induction false} RemoveNothing(s: string, chars: set<char>)
    requires forall c | c in s :: c !in chars
    ensures Remove(s, chars) == s
  {
    if s != "" {
      RemoveNothing(s[1..], chars);
    }
  }

  // What \s matches and parseInt skips.
  const WHITESPACE: set<char> := {
    ' ', '\t', '\n', '\r', '\U{0b}', '\U{0c}', '\U{a0}', '\U{1680}', '\U{2000}', '\U{2001}', '\U{2002}', '\U{2003}',
    '\U{2004}', '\U{2005}', '\U{2006}', '\U{2007}', '\U{2008}', '\U{2009}', '\U{200a}', '\U{2028}', '\U{2029}',
    '\U{202f}', '\U{205f}', '\U{3000}', '\U{feff}'}

  function TrimStart(s: string): string {
    if s != "" && s[0] in WHITESPACE then TrimStart(s[1..]) else s
  }

  // The longest run of digits, after 0x in radix 16. None stands for NaN.
  function ParseDigits(s: string, b: Radix): Option<nat> {
    var digits := if b == 16 && |s| >= 2 && s[0] == '0' && (s[1] == 'x' || s[1] == 'X') then s[2..] else s;
    var n := DigitPrefix(digits, b);
    if n == 0 then None else Some(Value(digits[..n], b))
  }

  // parseInt(s, b), for digits in lower case.
  function ParseInt(s: string, b: Radix): Option<int> {
    var t := TrimStart(s);
    if t != "" && t[0] == '-' then
      (match ParseDigits(t[1..], b) case Some(n) => Some(0 - n) case None => None)
    else if t != "" && t[0] == '+' then ParseDigits(t[1..], b)
    else ParseDigits(t, b)
  }

  lemma NotWhitespace(c: char)
    requires ValueOf(c) < 62 || c == '-' || c == '+'
    ensures c !in WHITESPACE
  {
  }

  lemma {:induction false} TrimShorter(s: string)
    ensures |TrimStart(s)| <= |s| && forall c | c in TrimStart(s) :: c in s
  {
    if s != "" && s[0] in WHITESPACE {
      TrimShorter(s[1..]);
    }
  }

  lemma ParseAllDigits(s: string, b: Radix)
    requires s != "" && IsNumeral(s, b) && b <= 16
    ensures ParseDigits(s, b).Some? && ParseDigits(s, b).value == Value(s, b)
  {
    DigitPrefixOf(s, "", b);
    assert s + "" == s && s[..|s|] == s;
    assert |s| >= 2 ==> ValueOf(s[1]) < b;
  }

  lemma ParseNumeral(s: string, b: Radix)
    requires s != "" && IsNumeral(s, b) && b <= 16
    ensures ParseInt(s, b).Some? && ParseInt(s, b).value == Value(s, b)
  {
    assert ValueOf(s[0]) < b;
    NotWhitespace(s[0]);
    ParseAllDigits(s, b);
  }

  lemma ParseNegative(digits: string, b: Radix)
    requires digits != "" && IsNumeral(digits, b) && b <= 16
    ensures ParseInt("-" + digits, b).Some? && ParseInt("-" + digits, b).value == 0 - Value(digits, b)
  {
    var t := "-" + digits;
    NotWhitespace(t[0]);
    assert t[1..] == digits;
    ParseAllDigits(digits, b);
  }

  lemma DigitsBound(s: string, b: Radix)
    ensures ParseDigits(s, b).Some? ==> ParseDigits(s, b).value < Pow(b, |s|)
  {
    if ParseDigits(s, b).Some? {
      var digits := if b == 16 && |s| >= 2 && s[0] == '0' && (s[1] == 'x' || s[1] == 'X') then s[2..] else s;
      var n := DigitPrefix(digits, b);
      ValueBelowPow(digits[..n], b);
      PowMono(b, n, |s|);
    }
  }

  // Without a minus sign the number is not negative and has no more digits than the text.
  lemma ParseBound(s: string, b: Radix)
    requires '-' !in s
    ensures ParseInt(s, b).Some? ==> 0 <= ParseInt(s, b).value < Pow(b, |s|)
  {
    TrimShorter(s);
    var t := TrimStart(s);
    var u := if t != "" && t[0] == '+' then t[1..] else t;
    DigitsBound(u, b);
    PowMono(b, |u|, |s|);
  }

  // toLowerCase on ASCII. No other character lower-cases to a digit or to a letter up to 'f'.
  function LowerChar(c: char): char {
    if 'A' <= c <= 'Z' then c + 32 as char else c
  }

  function Lower(s: string): (t: string)
    ensures |t| == |s| && forall i | 0 <= i < |s| :: t[i] == LowerChar(s[i])
  {
    seq(|s|, i requires 0 <= i < |s| => LowerChar(s[i]))
  }

  /** The capitals of the alphabet become its small letters, other characters stay. */
  lemma LowerAlphabet(c: char)
    ensures ValueOf(LowerChar(c)) == if 36 <= ValueOf(c) < 62 then ValueOf(c) - 26 else ValueOf(c)
    ensures !(36 <= ValueOf(c) < 62) ==> LowerChar(c) == c
  {
  }

  lemma LowerNumeral(s: string)
    requires IsNumeral(s, 36)
    ensures Lower(s) == s
  {
  }

  // Texts of digits of a radix hold no character outside the alphabet.
  lemma NumeralLacks(s: string, b: Radix, c: char)
    requires IsNumeral(s, b) && ValueOf(c) == 62
    ensures c !in s
  {
  }
}

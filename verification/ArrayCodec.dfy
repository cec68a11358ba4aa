/** The array fields of src/schema.class.ts: lists joined on a separator, strings escaped and
    integers in base 62. */
module ArrayCodec {
  import opened Options
  import opened Numerals
  import opened Texts

  // item.replace(/c/g, with)
  function ReplaceAll(s: string, c: char, with: string): string {
    if s == "" then "" else (if s[0] == c then with else [s[0]]) + ReplaceAll(s[1..], c, with)
  }

  function Escape(item: string, sep: char): string {
    ReplaceAll(ReplaceAll(item, '\\', "\\\\"), sep, ['\\', sep])
  }

  function EscapeAll(xs: seq<string>, sep: char): (ys: seq<string>)
    ensures |ys| == |xs|
  {
    if xs == [] then [] else [Escape(xs[0], sep)] + EscapeAll(xs[1..], sep)
  }

  function FromArray(xs: seq<string>, sep: char): string {
    if xs == [] then "" else Join(EscapeAll(xs, sep), sep)
  }

  // The items still to come when `s` is left to read and `current` is the item being built.
  function Items(s: string, sep: char, current: string): (items: seq<string>)
    ensures items != []
    decreases |s|
  {
    if s == "" then [current]
    else if s[0] == '\\' && |s| > 1 then Items(s[2..], sep, current + [s[1]])
    else if s[0] == sep then [current] + Items(s[1..], sep, "")
    else Items(s[1..], sep, current + [s[0]])
  }

  function ToArraySpec(s: string, sep: char): seq<string> {
    if s == "" then [] else Items(s, sep, "")
  }

  method SplitEscaped(str: string, sep: char) returns (items: seq<string>)
    ensures items == Items(str, sep, "")
  {
    items := [];
    var current, i := "", 0;
    while i < |str|
      invariant 0 <= i <= |str|
      invariant items + Items(str[i..], sep, current) == Items(str, sep, "")
    {
      if str[i] == '\\' && i + 1 < |str| {
        assert str[i..][2..] == str[i + 2..];
        current := current + [str[i + 1]];
        i := i + 2;
      } else if str[i] == sep {
        assert str[i..][1..] == str[i + 1..];
        assert items + ([current] + Items(str[i + 1..], sep, "")) == items + [current] + Items(str[i + 1..], sep, "");
        items := items + [current];
        current := "";
        i := i + 1;
      } else {
        assert str[i..][1..] == str[i + 1..];
        current := current + [str[i]];
        i := i + 1;
      }
    }
    items := items + [current];
  }

  method ToArray(s: string, sep: char) returns (items: seq<string>)
    ensures items == ToArraySpec(s, sep)
  {
    if s == "" {
      return [];
    }
    items := SplitEscaped(s, sep);
  }

  lemma ReplaceCons(c: char, rest: string, d: char, with: string)
    ensures ReplaceAll([c] + rest, d, with) == (if c == d then with else [c]) + ReplaceAll(rest, d, with)
  {
    assert ([c] + rest)[1..] == rest;
  }

  lemma EscapeCons(c: char, rest: string, sep: char)
    requires sep != '\\'
    ensures Escape([c] + rest, sep) == (if c == '\\' || c == sep then ['\\', c] else [c]) + Escape(rest, sep)
  {
    var inner := ReplaceAll(rest, '\\', "\\\\");
    var outer := ReplaceAll(inner, sep, ['\\', sep]);
    ReplaceCons(c, rest, '\\', "\\\\");
    if c == '\\' {
      assert "\\\\" + inner == [c] + ([c] + inner);
      ReplaceCons(c, inner, sep, ['\\', sep]);
      ReplaceCons(c, [c] + inner, sep, ['\\', sep]);
      assert [c] + ([c] + outer) == [c, c] + outer;
    } else {
      ReplaceCons(c, inner, sep, ['\\', sep]);
    }
  }

  // Reading an escaped item adds the item itself to the current one.
  lemma {:induction false} ItemsEscape(item: string, rest: string, sep: char, current: string)
    requires sep != '\\'
    ensures Items(Escape(item, sep) + rest, sep, current) == Items(rest, sep, current + item)
    decreases |item|
  {
    if item == "" {
      assert Escape(item, sep) + rest == rest && current + item == current;
    } else {
      var c, tail := item[0], item[1..];
      assert item == [c] + tail;
      EscapeCons(c, tail, sep);
      ItemsEscape(tail, rest, sep, current + [c]);
      assert current + [c] + tail == current + item;
      var more := Escape(tail, sep) + rest;
      if c == '\\' || c == sep {
        assert Escape(item, sep) + rest == ['\\', c] + more;
        assert (['\\', c] + more)[2..] == more;
      } else {
        assert Escape(item, sep) + rest == [c] + more;
        assert ([c] + more)[1..] == more;
      }
    }
  }

  lemma {:induction false} ItemsJoin(xs: seq<string>, sep: char)
    requires sep != '\\' && xs != []
    ensures Items(Join(EscapeAll(xs, sep), sep), sep, "") == xs
  {
    var escaped := EscapeAll(xs, sep);
    if |xs| == 1 {
      assert Escape(xs[0], sep) == Escape(xs[0], sep) + "";
      ItemsEscape(xs[0], "", sep, "");
      assert escaped == [Escape(xs[0], sep)];
      assert "" + xs[0] == xs[0];
      assert xs == [xs[0]];
    } else {
      var tail := Join(EscapeAll(xs[1..], sep), sep);
      assert escaped[1..] == EscapeAll(xs[1..], sep);
      assert Join(escaped, sep) == Escape(xs[0], sep) + ([sep] + tail);
      ItemsEscape(xs[0], [sep] + tail, sep, "");
      assert ([sep] + tail)[1..] == tail;
      ItemsJoin(xs[1..], sep);
      assert "" + xs[0] == xs[0];
    }
  }

  lemma EscapeEmpty(item: string, sep: char)
    requires sep != '\\'
    ensures Escape(item, sep) == "" <==> item == ""
  {
    if item != "" {
      assert item == [item[0]] + item[1..];
      EscapeCons(item[0], item[1..], sep);
    }
  }

  /** Whatever backslashes and separators the strings hold, the list comes back, exactly unless
      it is the one-element list of the empty string (which is stored like the empty list). */
  lemma StringArrayRoundTrip(xs: seq<string>, sep: char)
    requires sep != '\\'
    ensures ToArraySpec(FromArray(xs, sep), sep) == xs <==> xs != [""]
    ensures xs == [""] ==> ToArraySpec(FromArray(xs, sep), sep) == []
  {
    if xs != [] {
      var escaped := EscapeAll(xs, sep);
      EscapeEmpty(xs[0], sep);
      assert FromArray(xs, sep) == "" <==> xs == [""];
      ItemsJoin(xs, sep);
    }
  }

  lemma {:induction false} EscapeConcat(a: string, b: string, sep: char)
    requires sep != '\\'
    ensures Escape(a + b, sep) == Escape(a, sep) + Escape(b, sep)
    decreases |a|
  {
    if a == "" {
      assert a + b == b;
    } else {
      assert a == [a[0]] + a[1..] && a + b == [a[0]] + (a[1..] + b);
      EscapeCons(a[0], a[1..], sep);
      EscapeCons(a[0], a[1..] + b, sep);
      EscapeConcat(a[1..], b, sep);
    }
  }

  lemma {:induction false} ItemsInverse(t: string, sep: char, current: string)
    requires sep != '\\' && '\\' !in t
    ensures Join(EscapeAll(Items(t, sep, current), sep), sep) == Escape(current, sep) + t
    decreases |t|
  {
    if t == "" {
      assert EscapeAll([current], sep) == [Escape(current, sep)];
    } else if t[0] == sep {
      var rest := Items(t[1..], sep, "");
      ItemsInverse(t[1..], sep, "");
      assert ([current] + rest)[1..] == rest;
      assert EscapeAll([current] + rest, sep)[1..] == EscapeAll(rest, sep);
      assert [sep] + t[1..] == t;
    } else {
      ItemsInverse(t[1..], sep, current + [t[0]]);
      EscapeConcat(current, [t[0]], sep);
      assert [t[0]] == [t[0]] + "";
      EscapeCons(t[0], "", sep);
      assert Escape(current, sep) + [t[0]] + t[1..] == Escape(current, sep) + t;
    }
  }

  /** In the other direction, a text without backslashes is what the list it is read as is stored as. */
  lemma StoredTextRoundTrip(t: string, sep: char)
    requires sep != '\\' && '\\' !in t
    ensures FromArray(ToArraySpec(t, sep), sep) == t
  {
    if t != "" {
      ItemsInverse(t, sep, "");
    }
  }

  /** Stored lists of strings are told apart: two lists with the same text are equal, or one is
      empty and the other holds just the empty string. */
  lemma StringArrayInjective(xs: seq<string>, ys: seq<string>, sep: char)
    requires sep != '\\' && FromArray(xs, sep) == FromArray(ys, sep)
    ensures xs == ys || {xs, ys} == {[], [""]}
  {
    StringArrayRoundTrip(xs, sep);
    StringArrayRoundTrip(ys, sep);
  }

  /** The stored text of a list, item after item: escaped items with separators between, an
      escaped item having a backslash before each backslash and each separator. */
  lemma StoredItems(x: string, xs: seq<string>, c: char, sep: char)
    requires sep != '\\'
    ensures FromArray([], sep) == "" && Escape("", sep) == ""
    ensures FromArray([x] + xs, sep) == Escape(x, sep) + (if xs == [] then "" else [sep] + FromArray(xs, sep))
    ensures Escape([c] + x, sep) == (if c == '\\' || c == sep then ['\\', c] else [c]) + Escape(x, sep)
  {
    EscapeCons(c, x, sep);
    assert ([x] + xs)[1..] == xs;
    assert EscapeAll([x] + xs, sep) == [Escape(x, sep)] + EscapeAll(xs, sep);
    assert ([Escape(x, sep)] + EscapeAll(xs, sep))[1..] == EscapeAll(xs, sep);
  }

  /** Text the code did not write: a backslash before any other character is dropped, one at the
      very end is kept. */
  lemma LooseBackslash(item: string, c: char, sep: char)
    requires sep != '\\'
    ensures ToArraySpec(Escape(item, sep) + ['\\', c], sep) == [item + [c]]
    ensures ToArraySpec(Escape(item, sep) + ['\\'], sep) == [item + ['\\']]
  {
    ItemsEscape(item, ['\\', c], sep, "");
    ItemsEscape(item, ['\\'], sep, "");
    assert "" + item == item;
    assert ['\\', c][2..] == "" && ['\\'][1..] == "";
  }

  // Integers.

  function PrintAll(ns: seq<int>): (ts: seq<string>)
    ensures |ts| == |ns|
  {
    if ns == [] then [] else [PrintInt(ns[0], 62)] + PrintAll(ns[1..])
  }

  function FromArrayOfNumbers(ns: seq<int>, sep: char): string {
    if ns == [] then "" else Join(PrintAll(ns), sep)
  }

  // None stands for NaN; an empty item is NaN too.
  function ReadItem(item: string): Option<int> {
    if item == "" then None else Read(item, 62)
  }

  function ReadAll(items: seq<string>): seq<Option<int>> {
    if items == [] then [] else [ReadItem(items[0])] + ReadAll(items[1..])
  }

  function ToArrayOfNumbersSpec(s: string, sep: char): seq<Option<int>> {
    ReadAll(ToArraySpec(s, sep))
  }

  /** Item by item: an empty item and one with a character that is no digit are NaN. */
  lemma {:induction false} ReadItems(items: seq<string>, i: nat)
    requires i < |items|
    ensures |ReadAll(items)| == |items|
    ensures ReadAll(items)[i] == if items[i] == "" then None else Read(items[i], 62)
  {
    if |items| > 1 {
      ReadItems(items[1..], if i == 0 then 0 else i - 1);
    }
  }

  /** The stored text of a list of integers: their numerals with separators between. */
  lemma StoredNumbers(n: int, ns: seq<int>, sep: char)
    ensures FromArrayOfNumbers([], sep) == ""
    ensures FromArrayOfNumbers([n] + ns, sep)
         == PrintInt(n, 62) + (if ns == [] then "" else [sep] + FromArrayOfNumbers(ns, sep))
  {
    assert ([n] + ns)[1..] == ns;
    assert PrintAll([n] + ns) == [PrintInt(n, 62)] + PrintAll(ns);
    assert ([PrintInt(n, 62)] + PrintAll(ns))[1..] == PrintAll(ns);
  }

  method ToArrayOfNumbers(s: string, sep: char) returns (ns: seq<Option<int>>)
    ensures ns == ToArrayOfNumbersSpec(s, sep)
  {
    if s == "" {
      return [];
    }
    var items := SplitEscaped(s, sep);
    ns := ReadAll(items);
  }

  // A separator no number is printed with.
  predicate IsNumberSeparator(sep: char) {
    sep != '\\' && sep != '-' && ValueOf(sep) == 62
  }

  lemma {:induction false} ItemsPlain(t: string, rest: string, sep: char, current: string)
    requires '\\' !in t && sep !in t
    ensures Items(t + rest, sep, current) == Items(rest, sep, current + t)
    decreases |t|
  {
    if t == "" {
      assert t + rest == rest && current + t == current;
    } else {
      assert (t + rest)[1..] == t[1..] + rest;
      ItemsPlain(t[1..], rest, sep, current + [t[0]]);
      assert current + [t[0]] + t[1..] == current + t;
    }
  }

  lemma PrintIntPlain(z: int, sep: char)
    requires IsNumberSeparator(sep)
    ensures '\\' !in PrintInt(z, 62) && sep !in PrintInt(z, 62) && PrintInt(z, 62) != ""
  {
    var n := if z < 0 then -z else z;
    PrintShape(n, 62);
    NumeralLacks(Print(n, 62), 62, '\\');
    NumeralLacks(Print(n, 62), 62, sep);
  }

  lemma {:induction false} ItemsNumbers(ns: seq<int>, sep: char)
    requires IsNumberSeparator(sep) && ns != []
    ensures Items(Join(PrintAll(ns), sep), sep, "") == PrintAll(ns)
    ensures Join(PrintAll(ns), sep) != ""
  {
    var first := PrintInt(ns[0], 62);
    PrintIntPlain(ns[0], sep);
    assert "" + first == first;
    if |ns| == 1 {
      assert first == first + "";
      ItemsPlain(first, "", sep, "");
    } else {
      var tail := Join(PrintAll(ns[1..]), sep);
      assert PrintAll(ns)[1..] == PrintAll(ns[1..]);
      assert Join(PrintAll(ns), sep) == first + ([sep] + tail);
      ItemsPlain(first, [sep] + tail, sep, "");
      assert ([sep] + tail)[1..] == tail;
      ItemsNumbers(ns[1..], sep);
    }
  }

  function Known(ns: seq<int>): seq<Option<int>> {
    if ns == [] then [] else [Some(ns[0])] + Known(ns[1..])
  }

  lemma {:induction false} ReadAllPrintAll(ns: seq<int>)
    ensures ReadAll(PrintAll(ns)) == Known(ns)
  {
    if ns != [] {
      ReadPrint(ns[0], 62);
      PrintIntPlain(ns[0], '|');
      assert PrintAll(ns)[1..] == PrintAll(ns[1..]);
      ReadAllPrintAll(ns[1..]);
    }
  }

  /** Every list of integers comes back, empty and negative ones included. */
  lemma NumberArrayRoundTrip(ns: seq<int>, sep: char)
    requires IsNumberSeparator(sep)
    ensures ToArrayOfNumbersSpec(FromArrayOfNumbers(ns, sep), sep) == Known(ns)
  {
    if ns != [] {
      ItemsNumbers(ns, sep);
      ReadAllPrintAll(ns);
    }
  }
}

/**
 * String primitives of the PHP runtime that the workflow code leans on:
 * decimal formatting (string interpolation of integers, sprintf('%04d')),
 * explode/implode, trim and str_replace.
 */
module Text {

  predicate IsDigit(c: char) { '0' <= c <= '9' }

  predicate AllDigits(s: string) { forall i :: 0 <= i < |s| ==> IsDigit(s[i]) }

  function DigitChar(d: nat): (c: char)
    requires d < 10
    ensures IsDigit(c)
  {
    ['0', '1', '2', '3', '4', '5', '6', '7', '8', '9'][d]
  }

  function DigitValue(c: char): nat
    requires IsDigit(c)
  {
    (c as int - '0' as int) as nat
  }

  lemma DigitRoundTrip(d: nat)
    requires d < 10
    ensures DigitValue(DigitChar(d)) == d
  {
  }

  /** Decimal rendering of a natural number, as PHP interpolates an int into a string. */
  function NatToString(n: nat): (s: string)
    ensures |s| >= 1 && AllDigits(s)
    ensures n < 10 <==> |s| == 1
  {
    if n < 10 then [DigitChar(n)] else NatToString(n / 10) + [DigitChar(n % 10)]
  }

  /** Value of a string of decimal digits (the partner of NatToString). */
  function ParseNat(s: string): nat
    requires AllDigits(s)
  {
    if |s| == 0 then 0 else 10 * ParseNat(s[..|s| - 1]) + DigitValue(s[|s| - 1])
  }

  lemma {:induction false} ParseNatToString(n: nat)
    ensures ParseNat(NatToString(n)) == n
  {
    var s := NatToString(n);
    if n < 10 {
      DigitRoundTrip(n);
    } else {
      assert s[..|s| - 1] == NatToString(n / 10);
      DigitRoundTrip(n % 10);
      ParseNatToString(n / 10);
    }
  }

  /** sprintf('%0{width}d', n): the decimal digits, left-padded with '0' up to `width`. */
  function ZeroPad(n: nat, width: nat): (s: string)
    ensures AllDigits(s)
    ensures |s| == if |NatToString(n)| >= width then |NatToString(n)| else width
  {
    var digits := NatToString(n);
    if |digits| >= width then digits else seq(width - |digits|, _ => '0') + digits
  }

  lemma {:induction false} ParseLeadingZeros(k: nat, s: string)
    requires AllDigits(s)
    ensures AllDigits(seq(k, _ => '0') + s)
    ensures ParseNat(seq(k, _ => '0') + s) == ParseNat(s)
    decreases |s|
  {
    var z := seq(k, _ => '0') + s;
    if |s| == 0 {
      assert AllDigits(z);
      ParseZeros(k);
      assert z == seq(k, _ => '0');
    } else {
      assert z[..|z| - 1] == seq(k, _ => '0') + s[..|s| - 1];
      ParseLeadingZeros(k, s[..|s| - 1]);
    }
  }

  lemma {:induction false} ParseZeros(k: nat)
    ensures AllDigits(seq(k, _ => '0'))
    ensures ParseNat(seq(k, _ => '0')) == 0
  {
    if k > 0 {
      assert seq(k, _ => '0')[..k - 1] == seq(k - 1, _ => '0');
      ParseZeros(k - 1);
    }
  }

  /** Zero padding never changes the number that the digits denote. */
  lemma ZeroPadValue(n: nat, width: nat)
    ensures ParseNat(ZeroPad(n, width)) == n
  {
    var digits := NatToString(n);
    ParseNatToString(n);
    if |digits| < width {
      var padded := seq(width - |digits|, _ => '0') + digits;
      assert ZeroPad(n, width) == padded;
      ParseLeadingZeros(width - |digits|, digits);
    } else {
      assert ZeroPad(n, width) == digits;
    }
  }

  /** implode($sep, $parts). */
  function Join(sep: string, parts: seq<string>): string
  {
    if |parts| == 0 then "" else if |parts| == 1 then parts[0] else parts[0] + sep + Join(sep, parts[1..])
  }

  /** Three pieces without the delimiter, joined by it, split back into themselves. */
  lemma SplitThree(a: string, b: string, c: string, sep: char)
    requires sep !in a && sep !in b && sep !in c
    ensures Split(a + [sep] + b + [sep] + c, sep) == [a, b, c]
  {
    JoinThree([sep], a, b, c);
    SplitJoin([a, b, c], sep);
  }

  /**
   * The translation key `"{$group}{$value}"` that the enums hand to `__()`: the group
   * it starts with is followed by exactly the value, so the value can be read back.
   */
  function TranslationKey(group: string, value: string): (k: string)
    ensures group <= k && k[|group|..] == value
  {
    group + value
  }

  /** Regrouping a concatenation so that everything after its first piece is one string. These two are
      proof helpers with no counterpart in the PHP code; calling them keeps the label proofs small. */
  lemma Associate(a: string, b: string, c: string)
    ensures a + b + c == a + (b + c)
  { }

  lemma Regroup(a: string, b: string, c: string, d: string, e: string)
    ensures a + b + c + d + e == a + (b + c + d + e)
  {
  }

  lemma JoinThree(sep: string, a: string, b: string, c: string)
    ensures Join(sep, [a, b, c]) == a + sep + b + sep + c
  {
    assert [a, b, c][1..] == [b, c];
    assert [b, c][1..] == [c];
    assert Join(sep, [b, c]) == b + sep + c;
    assert Join(sep, [a, b, c]) == a + sep + (b + sep + c);
  }

  /** explode($c, $s) for a one-character delimiter: never empty, no piece holds the delimiter. */
  function Split(s: string, c: char): (pieces: seq<string>)
    ensures |pieces| >= 1
    ensures forall i :: 0 <= i < |pieces| ==> c !in pieces[i]
  {
    if |s| == 0 then [""]
    else if s[0] == c then [""] + Split(s[1..], c)
    else
      var rest := Split(s[1..], c);
      [[s[0]] + rest[0]] + rest[1..]
  }

  lemma {:induction false} JoinSplit(s: string, c: char)
    ensures Join([c], Split(s, c)) == s
  {
    if |s| > 0 {
      JoinSplit(s[1..], c);
      var rest := Split(s[1..], c);
      if s[0] != c && |rest| > 1 {
        assert Join([c], Split(s, c)) == [s[0]] + rest[0] + [c] + Join([c], rest[1..]);
      }
    }
  }

  /** Splitting what was joined on a delimiter that no part contains gives the parts back. */
  lemma {:induction false} SplitJoin(parts: seq<string>, c: char)
    requires |parts| >= 1
    requires forall i :: 0 <= i < |parts| ==> c !in parts[i]
    ensures Split(Join([c], parts), c) == parts
    decreases |parts|, |parts[0]|
  {
    if |parts[0]| == 0 {
      if |parts| > 1 {
        assert Join([c], parts) == [c] + Join([c], parts[1..]);
        SplitJoin(parts[1..], c);
      }
    } else {
      var p := parts[0];
      var tail := [p[1..]] + parts[1..];
      assert c !in p[1..] by {
        forall i | 0 <= i < |p[1..]| ensures p[1..][i] != c { assert p[1..][i] == p[i + 1]; }
      }
      if |parts| == 1 {
        assert Join([c], parts) == [p[0]] + Join([c], tail);
      } else {
        assert Join([c], parts) == [p[0]] + Join([c], tail);
      }
      SplitJoin(tail, c);
      assert Split(Join([c], parts), c) == [[p[0]] + p[1..]] + parts[1..];
      assert [p[0]] + p[1..] == p;
    }
  }

  /** PHP truthiness of a string: "" and "0" are falsy. */
  predicate PhpTruthy(s: string)
  {
    s != "" && s != "0"
  }

  /** `array_filter` over strings: the truthy ones, in order. */
  function ArrayFilter(parts: seq<string>): (kept: seq<string>)
    ensures forall i :: 0 <= i < |kept| ==> PhpTruthy(kept[i])
    ensures (forall i :: 0 <= i < |parts| ==> PhpTruthy(parts[i])) ==> kept == parts
  {
    if |parts| == 0 then []
    else (if PhpTruthy(parts[0]) then [parts[0]] else []) + ArrayFilter(parts[1..])
  }

  /** The characters PHP's trim() strips by default: " \t\n\r\0\x0B". */
  predicate IsPhpSpace(c: char)
  {
    c == ' ' || c == '\t' || c == '\n' || c == '\r' || c == '\0' || c == '\U{000B}'
  }

  /** ltrim($s): the string after its leading PHP white space. */
  function TrimLeft(s: string): (r: string)
    ensures |r| <= |s| && r == s[|s| - |r|..]
    ensures |r| > 0 ==> !IsPhpSpace(r[0])
    ensures forall j :: 0 <= j < |s| - |r| ==> IsPhpSpace(s[j])
  {
    if |s| > 0 && IsPhpSpace(s[0]) then TrimLeft(s[1..]) else s
  }

  /** rtrim($s): the string before its trailing PHP white space. */
  function TrimRight(s: string): (r: string)
    ensures |r| <= |s| && r == s[..|r|]
    ensures |r| > 0 ==> !IsPhpSpace(r[|r| - 1])
    ensures forall j :: |r| <= j < |s| ==> IsPhpSpace(s[j])
  {
    if |s| > 0 && IsPhpSpace(s[|s| - 1]) then TrimRight(s[..|s| - 1]) else s
  }

  /** trim($s): the string without leading and trailing PHP whitespace. */
  function Trim(s: string): (r: string)
    ensures |r| > 0 ==> !IsPhpSpace(r[0]) && !IsPhpSpace(r[|r| - 1])
  {
    TrimRight(TrimLeft(s))
  }

  /** `s` is `r` with `a` characters of PHP white space before it and only PHP white space after it. */
  predicate Padded(s: string, a: int, r: string)
  {
    0 <= a <= |s| - |r| && r == s[a..a + |r|]
    && (forall j :: 0 <= j < a ==> IsPhpSpace(s[j]))
    && (forall j :: a + |r| <= j < |s| ==> IsPhpSpace(s[j]))
  }

  /** trim() removes white space from the two ends and nothing else. */
  lemma TrimStripsOnlySpace(s: string)
    ensures exists a :: Padded(s, a, Trim(s))
  {
    var left := TrimLeft(s);
    var r := TrimRight(left);
    var a := |s| - |left|;
    assert r == s[a..a + |r|];
    forall j | a + |r| <= j < |s|
      ensures IsPhpSpace(s[j])
    {
      assert s[j] == left[j - a];
    }
    assert Padded(s, a, Trim(s));
  }

  /** A string that trim() leaves alone. */
  predicate Trimmed(s: string)
  {
    |s| == 0 || (!IsPhpSpace(s[0]) && !IsPhpSpace(s[|s| - 1]))
  }

  lemma TrimTrimmed(s: string)
    requires Trimmed(s)
    ensures Trim(s) == s
  {
  }

  lemma TrimLeadingBlank(s: string)
    requires Trimmed(s)
    ensures Trim(" " + s) == s
  {
    var t := " " + s;
    assert t[1..] == s;
    assert IsPhpSpace(t[0]);
    assert TrimLeft(t) == TrimLeft(t[1..]);
    TrimTrimmed(s);
  }

  /** str_replace($search, $replace, $s) for one non-empty search string: left to right, non-overlapping. */
  function ReplaceAll(s: string, search: string, replace: string): string
    requires |search| > 0
    decreases |s|
  {
    if |s| < |search| then s
    else if s[..|search|] == search then replace + ReplaceAll(s[|search|..], search, replace)
    else [s[0]] + ReplaceAll(s[1..], search, replace)
  }

  /** With a one-character search and replacement, str_replace maps characters one by one. */
  lemma {:induction false} ReplaceCharAt(s: string, a: char, b: char, i: nat)
    requires i < |s|
    ensures |ReplaceAll(s, [a], [b])| == |s|
    ensures ReplaceAll(s, [a], [b])[i] == if s[i] == a then b else s[i]
    decreases |s|
  {
    if i > 0 {
      ReplaceCharAt(s[1..], a, b, i - 1);
    } else if |s| > 1 {
      ReplaceCharAt(s[1..], a, b, 0);
    }
  }

  /** `pat` occurs in `s` starting at position `i`. */
  predicate OccursAt(s: string, i: int, pat: string)
  {
    0 <= i && i + |pat| <= |s| && s[i..i + |pat|] == pat
  }

  /** A string in which the search string never occurs comes back from str_replace unchanged. */
  lemma {:induction false} ReplaceAbsent(s: string, search: string, replace: string)
    requires |search| > 0
    requires forall i :: !OccursAt(s, i, search)
    ensures ReplaceAll(s, search, replace) == s
    decreases |s|
  {
    if |s| >= |search| {
      assert !OccursAt(s, 0, search);
      forall i ensures !OccursAt(s[1..], i, search) {
        if OccursAt(s[1..], i, search) {
          assert s[1..][i..i + |search|] == s[i + 1..i + 1 + |search|];
          assert OccursAt(s, i + 1, search);
        }
      }
      ReplaceAbsent(s[1..], search, replace);
    }
  }
}

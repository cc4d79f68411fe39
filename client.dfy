/**
 * The string helpers of the browser client: `basename` and `extension` of a stored path,
 * the `wordCount` shown under text areas, and `getValue`, which reads a dotted path out of
 * a table row with a fallback.
 */
module Client {
  import opened Wrappers
  import opened Text

  // ---- basename and extension ----

  /** `lastIndexOf(c)`: the last position holding `c`, or -1. */
  function LastIndexOf(s: string, c: char): (i: int)
    ensures -1 <= i < |s|
    ensures i >= 0 ==> s[i] == c
    ensures forall j :: i < j < |s| ==> s[j] != c
  {
    if |s| == 0 then -1
    else if s[|s| - 1] == c then |s| - 1
    else LastIndexOf(s[..|s| - 1], c)
  }

  /** `value?.substring(value?.lastIndexOf(c) + 1)`: what follows the last `c`, or the whole string; nothing for a missing value. */
  function After(value: Option<string>, c: char): Option<string>
  {
    match value
    case None => None
    case Some(s) => Some(s[LastIndexOf(s, c) + 1..])
  }

  function Basename(value: Option<string>): Option<string>
  {
    After(value, '/')
  }

  function Extension(value: Option<string>): Option<string>
  {
    After(value, '.')
  }

  /** The last occurrence is the one position with `c` and no `c` after it. */
  lemma LastIndexUnique(s: string, c: char, i: int)
    requires -1 <= i < |s| && (i >= 0 ==> s[i] == c)
    requires forall j :: i < j < |s| ==> s[j] != c
    ensures LastIndexOf(s, c) == i
  {
  }

  lemma {:induction false} NoDelimiter(s: string, c: char)
    requires c !in s
    ensures Split(s, c) == [s]
  {
    if |s| > 0 {
      assert c !in s[1..] by {
        forall j | 0 <= j < |s[1..]| ensures s[1..][j] != c { assert s[1..][j] == s[j + 1]; }
      }
      NoDelimiter(s[1..], c);
      assert [s[0]] + s[1..] == s;
    }
  }

  lemma {:induction false} LastPieceOfSplit(s: string, c: char)
    ensures var pieces := Split(s, c);
      pieces[|pieces| - 1] == s[LastIndexOf(s, c) + 1..]
  {
    if c !in s {
      NoDelimiter(s, c);
      LastIndexUnique(s, c, -1);
    } else if c in s[1..] {
      LastPieceOfSplit(s[1..], c);
      LastIndexShift(s, c);
      LastPieceShift(s, c);
      assert s[LastIndexOf(s, c) + 1..] == s[1..][LastIndexOf(s[1..], c) + 1..];
    } else {
      assert s[0] == c;
      forall j | 0 < j < |s| ensures s[j] != c { assert s[j] == s[1..][j - 1]; }
      LastIndexUnique(s, c, 0);
      NoDelimiter(s[1..], c);
    }
  }

  /** A delimiter after the first character keeps the last occurrence where it was in the tail. */
  lemma LastIndexShift(s: string, c: char)
    requires |s| > 0 && c in s[1..]
    ensures LastIndexOf(s, c) == LastIndexOf(s[1..], c) + 1
  {
    var k' := LastIndexOf(s[1..], c);
    var j :| 0 <= j < |s[1..]| && s[1..][j] == c;
    assert k' >= 0 && s[1..][k'] == c;
    forall j | k' + 1 < j < |s| ensures s[j] != c { assert s[j] == s[1..][j - 1]; }
    LastIndexUnique(s, c, k' + 1);
  }

  /** A delimiter after the first character leaves the last piece to the tail's split. */
  lemma LastPieceShift(s: string, c: char)
    requires |s| > 0 && c in s[1..]
    ensures var pieces := Split(s, c); var rest := Split(s[1..], c);
      pieces[|pieces| - 1] == rest[|rest| - 1]
  {
    DelimiterSplits(s[1..], c);
  }

  lemma {:induction false} SplitHasDelimiter(s: string, c: char)
    requires |Split(s, c)| > 1
    ensures c in s
  {
    if |s| > 0 && s[0] != c {
      SplitHasDelimiter(s[1..], c);
    }
  }

  lemma {:induction false} DelimiterSplits(s: string, c: char)
    requires c in s
    ensures |Split(s, c)| > 1
  {
    if s[0] != c {
      assert c in s[1..] by {
        var j :| 0 <= j < |s| && s[j] == c;
        assert s[1..][j - 1] == c;
      }
      DelimiterSplits(s[1..], c);
    }
  }

  /**
   * The base name is the last '/'-separated piece of the path: it holds no '/', and the
   * path is whatever comes before it followed by it; a path without '/' is its own base
   * name. The same holds for the extension and '.'.
   */
  lemma AfterIsLastPiece(s: string, c: char)
    ensures var r := After(Some(s), c).value;
      c !in r && s == s[..|s| - |r|] + r
      && r == Split(s, c)[|Split(s, c)| - 1]
      && (c !in s ==> r == s)
      && (c in s ==> |r| < |s| && s[|s| - |r| - 1] == c)
  {
    LastPieceOfSplit(s, c);
    AfterSplitsValue(s, c);
    AfterFollowsDelimiter(s, c);
  }

  /** The value is what precedes the last `c` followed by what follows it, and the latter holds no `c`. */
  lemma AfterSplitsValue(s: string, c: char)
    ensures var r := After(Some(s), c).value;
      c !in r && s == s[..|s| - |r|] + r
  {
    AfterHoldsNoDelimiter(s, c);
    var k := LastIndexOf(s, c);
    assert s[..|s| - |s[k + 1..]|] == s[..k + 1];
  }

  lemma AfterHoldsNoDelimiter(s: string, c: char)
    ensures c !in After(Some(s), c).value
  {
    var k := LastIndexOf(s, c);
    var r := s[k + 1..];
    forall j | 0 <= j < |r| ensures r[j] != c {
      assert r[j] == s[k + 1 + j];
    }
  }

  /** Without a `c` the whole value is kept; with one, the kept part is shorter and directly follows a `c`. */
  lemma AfterFollowsDelimiter(s: string, c: char)
    ensures var r := After(Some(s), c).value;
      (c !in s ==> r == s) && (c in s ==> |r| < |s| && s[|s| - |r| - 1] == c)
  {
    LastIndexFound(s, c);
  }

  /** `lastIndexOf` finds a position exactly when the character occurs. */
  lemma LastIndexFound(s: string, c: char)
    ensures c in s <==> LastIndexOf(s, c) >= 0
  {
    if c in s {
      var j :| 0 <= j < |s| && s[j] == c;
      assert LastIndexOf(s, c) >= j;
    }
  }

  // ---- word count ----

  /** What JavaScript's `trim()` and the regular expression `\s` treat as white space. */
  predicate JsSpace(c: char)
  {
    c == ' ' || c == '\t' || c == '\n' || c == '\r' || c == '\U{000B}' || c == '\U{000C}'
    || c == '\U{00A0}' || c == '\U{1680}' || ('\U{2000}' <= c <= '\U{200A}') || c == '\U{2028}' || c == '\U{2029}'
    || c == '\U{202F}' || c == '\U{205F}' || c == '\U{3000}' || c == '\U{FEFF}'
  }

  /** `trimStart()`: the string after its leading white space. */
  function TrimStart(s: string): (r: string)
    ensures |r| <= |s| && r == s[|s| - |r|..]
    ensures |r| > 0 ==> !JsSpace(r[0])
    ensures forall j :: 0 <= j < |s| - |r| ==> JsSpace(s[j])
  {
    if |s| > 0 && JsSpace(s[0]) then TrimStart(s[1..]) else s
  }

  /** `trimEnd()`: the string before its trailing white space. */
  function TrimEnd(s: string): (r: string)
    ensures |r| <= |s| && r == s[..|r|]
    ensures |r| > 0 ==> !JsSpace(r[|r| - 1])
    ensures forall j :: |r| <= j < |s| ==> JsSpace(s[j])
  {
    if |s| > 0 && JsSpace(s[|s| - 1]) then TrimEnd(s[..|s| - 1]) else s
  }

  function JsTrim(s: string): string
  {
    TrimEnd(TrimStart(s))
  }

  /** Positions that start a run of white space (a run at the very start counts when `afterSpace` is false). */
  function SpaceRuns(t: string, afterSpace: bool): nat
  {
    if |t| == 0 then 0
    else (if JsSpace(t[0]) && !afterSpace then 1 else 0) + SpaceRuns(t[1..], JsSpace(t[0]))
  }

  /** `wordCount`: 0 for a blank value, otherwise the white-space runs of the trimmed value plus one. */
  function WordCount(value: string): (n: nat)
    ensures n == 0 <==> JsTrim(value) == ""
  {
    var t := JsTrim(value);
    if t == "" then 0 else SpaceRuns(t, false) + 1
  }

  /** Positions that start a word: a non-space character at the start or after white space. */
  function WordStarts(t: string, afterSpace: bool): nat
  {
    if |t| == 0 then 0
    else (if !JsSpace(t[0]) && afterSpace then 1 else 0) + WordStarts(t[1..], JsSpace(t[0]))
  }

  /** The number of words: maximal runs of characters other than white space. */
  function Words(s: string): nat
  {
    WordStarts(s, true)
  }

  /** Word starts and space-run starts alternate, so their counts differ only by how the text begins and ends. */
  lemma {:induction false} RunsAlternate(t: string, afterSpace: bool)
    ensures WordStarts(t, afterSpace) + (if (if |t| == 0 then afterSpace else JsSpace(t[|t| - 1])) then 1 else 0)
         == SpaceRuns(t, afterSpace) + (if afterSpace then 1 else 0)
  {
    if |t| > 0 {
      RunsAlternate(t[1..], JsSpace(t[0]));
      if |t| > 1 {
        assert t[1..][|t[1..]| - 1] == t[|t| - 1];
      }
    }
  }

  lemma {:induction false} TrimStartKeepsWords(s: string)
    ensures WordStarts(TrimStart(s), true) == WordStarts(s, true)
  {
    if |s| > 0 && JsSpace(s[0]) {
      TrimStartKeepsWords(s[1..]);
    }
  }

  lemma {:induction false} DropTrailingSpace(s: string, afterSpace: bool)
    requires |s| > 0 && JsSpace(s[|s| - 1])
    ensures WordStarts(s[..|s| - 1], afterSpace) == WordStarts(s, afterSpace)
  {
    if |s| > 1 {
      assert s[..|s| - 1][1..] == s[1..][..|s[1..]| - 1];
      assert s[..|s| - 1][0] == s[0];
      DropTrailingSpace(s[1..], JsSpace(s[0]));
    }
  }

  lemma {:induction false} TrimEndKeepsWords(s: string, afterSpace: bool)
    ensures WordStarts(TrimEnd(s), afterSpace) == WordStarts(s, afterSpace)
  {
    if |s| > 0 && JsSpace(s[|s| - 1]) {
      DropTrailingSpace(s, afterSpace);
      TrimEndKeepsWords(s[..|s| - 1], afterSpace);
    }
  }

  /** `wordCount` counts the words of the value: 0 for blank input, and one more than the inner white-space runs otherwise. */
  lemma WordCountCountsWords(value: string)
    ensures WordCount(value) == Words(value)
  {
    TrimStartKeepsWords(value);
    TrimEndKeepsWords(TrimStart(value), true);
    var t := JsTrim(value);
    if t != "" {
      RunsAlternate(t[1..], false);
      if |t| > 1 {
        assert t[1..][|t[1..]| - 1] == t[|t| - 1];
      }
    }
  }

  // ---- getValue ----

  /** The values a table row holds. */
  datatype Value = Null | Bool(b: bool) | Num(n: int) | Str(s: string) | Obj(fields: map<string, Value>) | Arr(items: seq<Value>)

  predicate Truthy(v: Value)
  {
    match v
    case Null => false
    case Bool(b) => b
    case Num(n) => n != 0
    case Str(s) => s != ""
    case Obj(_) => true
    case Arr(_) => true
  }

  /** A key JavaScript reads as an array or string index: digits without a leading zero. */
  predicate CanonicalIndex(k: string)
  {
    |k| > 0 && AllDigits(k) && (k == "0" || k[0] != '0')
  }

  /** `a[k]` on a value that is not null: own fields, indices and `length`; anything else is undefined. */
  function Index(a: Value, k: string): Value
  {
    match a
    case Obj(fields) => if k in fields then fields[k] else Null
    case Arr(items) =>
      if k == "length" then Num(|items|)
      else if CanonicalIndex(k) && ParseNat(k) < |items| then items[ParseNat(k)]
      else Null
    case Str(s) =>
      if k == "length" then Num(|s|)
      else if CanonicalIndex(k) && ParseNat(k) < |s| then Str([s[ParseNat(k)]])
      else Null
    case _ => Null
  }

  /** One step of the `reduce`: `a[v] || fallback`. */
  function Step(a: Value, k: string, fallback: string): (r: Value)
    ensures r != Null
  {
    var x := Index(a, k);
    if Truthy(x) then x else Str(fallback)
  }

  function Walk(path: seq<string>, a: Value, fallback: string): Value
    decreases |path|
  {
    if |path| == 0 then a else Walk(path[1..], Step(a, path[0], fallback), fallback)
  }

  /** `getValue(key, row, fallback)`: the path split on '.', walked from the row, and the fallback for a falsy result. */
  function GetValue(key: string, row: Value, fallback: string): (v: Value)
    requires row != Null
    ensures Truthy(v) || v == Str(fallback)
  {
    var r := Walk(Split(key, '.'), row, fallback);
    if Truthy(r) then r else Str(fallback)
  }

  /** Following a path through truthy values only; none when some step is falsy. */
  function Resolve(path: seq<string>, a: Value): Option<Value>
    decreases |path|
  {
    if |path| == 0 then Some(a)
    else
      var x := Index(a, path[0]);
      if Truthy(x) then Resolve(path[1..], x) else None
  }

  /** Keys that read nothing out of a string. */
  predicate PlainKeys(path: seq<string>)
  {
    forall j :: 0 <= j < |path| ==> path[j] != "length" && !CanonicalIndex(path[j])
  }

  lemma {:induction false} WalkResolved(path: seq<string>, a: Value, fallback: string)
    requires Resolve(path, a).Some?
    ensures Walk(path, a, fallback) == Resolve(path, a).value
    decreases |path|
  {
    if |path| > 0 {
      WalkResolved(path[1..], Index(a, path[0]), fallback);
    }
  }

  lemma {:induction false} FallbackSticks(path: seq<string>, fallback: string)
    requires PlainKeys(path)
    ensures Walk(path, Str(fallback), fallback) == Str(fallback)
    decreases |path|
  {
    if |path| > 0 {
      assert PlainKeys(path[1..]) by {
        forall j | 0 <= j < |path[1..]| ensures path[1..][j] == path[j + 1] { }
      }
      FallbackSticks(path[1..], fallback);
    }
  }

  lemma {:induction false} WalkUnresolved(path: seq<string>, a: Value, fallback: string)
    requires Resolve(path, a).None? && PlainKeys(path)
    ensures Walk(path, a, fallback) == Str(fallback)
    decreases |path|
  {
    assert PlainKeys(path[1..]) by {
      forall j | 0 <= j < |path[1..]| ensures path[1..][j] == path[j + 1] { }
    }
    if Truthy(Index(a, path[0])) {
      WalkUnresolved(path[1..], Index(a, path[0]), fallback);
    } else {
      FallbackSticks(path[1..], fallback);
    }
  }

  /**
   * A path that resolves through truthy values gives the value it reaches; a path with a
   * falsy step gives the fallback, as long as no later key reads into the fallback string.
   */
  lemma GetValueMeaning(key: string, row: Value, fallback: string)
    requires row != Null
    ensures var path := Split(key, '.');
      Resolve(path, row).Some? && Truthy(Resolve(path, row).value) ==> GetValue(key, row, fallback) == Resolve(path, row).value
    ensures var path := Split(key, '.');
      Resolve(path, row).None? && PlainKeys(path) ==> GetValue(key, row, fallback) == Str(fallback)
  {
    var path := Split(key, '.');
    if Resolve(path, row).Some? {
      WalkResolved(path, row, fallback);
    } else if PlainKeys(path) {
      WalkUnresolved(path, row, fallback);
    }
  }

  /** A missing field followed by `length` reads the length of the fallback: "-" gives 1, not "-". */
  lemma MissingThenLength(field: string)
    requires '.' !in field
    ensures GetValue(field + ".length", Obj(map[]), "-") == Num(1)
  {
    var path := [field, "length"];
    assert path[1..] == ["length"];
    assert Join(".", path) == field + "." + "length";
    assert '.' !in "length";
    SplitJoin(path, '.');
    assert field + ".length" == Join(['.'], path);
    assert Step(Obj(map[]), field, "-") == Str("-");
    assert Walk(path, Obj(map[]), "-") == Walk(["length"], Str("-"), "-");
    assert Walk(["length"], Str("-"), "-") == Walk([], Num(1), "-");
  }
}

/**
 * The manuscript update request: authorisation, the keyword list (split before
 * validation, joined again in `safe()`), the reviewer-list rules with the per-country cap,
 * the per-action field rules that the workflow depends on, and the rewrite of nested field
 * names into the labels shown in validation messages.
 */
module UpdateRequest {
  import opened Wrappers
  import opened Text
  import opened Records
  import ActionEnum

  /** `authorize()`: every action is allowed to every user; no role is checked here. */
  function Authorize(user: Option<User>, action: ActionEnum.Action): (ok: bool)
    ensures ok
  {
    true
  }

  // ---- keywords ----

  /** `prepareForValidation` on create, edit and revise: split on ',', drop "" and "0", trim what is left. */
  function PrepareKeywords(input: string): (keywords: seq<string>)
    ensures |keywords| <= |Split(input, ',')|
    ensures forall i :: 0 <= i < |keywords| ==> ',' !in keywords[i]
  {
    var kept := ArrayFilter(Split(input, ','));
    FilterShrinks(Split(input, ','));
    seq(|kept|, i requires 0 <= i < |kept| => Trim(kept[i]))
  }

  lemma {:induction false} FilterShrinks(parts: seq<string>)
    ensures |ArrayFilter(parts)| <= |parts|
    ensures forall i :: 0 <= i < |ArrayFilter(parts)| ==> exists j :: 0 <= j < |parts| && ArrayFilter(parts)[i] == parts[j]
  {
    if |parts| > 0 {
      FilterShrinks(parts[1..]);
      var rest := ArrayFilter(parts[1..]);
      forall i | 0 <= i < |ArrayFilter(parts)|
        ensures exists j :: 0 <= j < |parts| && ArrayFilter(parts)[i] == parts[j]
      {
        if PhpTruthy(parts[0]) && i == 0 {
          assert ArrayFilter(parts)[0] == parts[0];
        } else {
          var k := if PhpTruthy(parts[0]) then i - 1 else i;
          assert ArrayFilter(parts)[i] == rest[k];
          var j :| 0 <= j < |parts[1..]| && rest[k] == parts[1..][j];
          assert parts[1..][j] == parts[j + 1];
        }
      }
    }
  }

  /** `safe()` on create, edit and revise: the keywords stored as one string, joined by ", ". */
  function JoinKeywords(keywords: seq<string>): string
  {
    Join(", ", keywords)
  }

  /** A keyword that survives the round trip: non-empty, not "0", no ',' and no surrounding PHP whitespace. */
  predicate CleanKeyword(k: string)
  {
    k != "" && k != "0" && ',' !in k && Trimmed(k)
  }

  /** Every keyword after the first is preceded by a blank in the stored string. */
  function Spaced(ks: seq<string>): (r: seq<string>)
    ensures |r| == |ks|
    ensures forall i :: 0 <= i < |ks| ==> r[i] == " " + ks[i]
  {
    seq(|ks|, i requires 0 <= i < |ks| => " " + ks[i])
  }

  lemma {:induction false} JoinSpaced(ks: seq<string>)
    requires |ks| >= 1
    ensures Join(",", Spaced(ks)) == " " + Join(", ", ks)
    decreases |ks|
  {
    if |ks| > 1 {
      JoinSpaced(ks[1..]);
      assert Spaced(ks)[1..] == Spaced(ks[1..]);
    }
  }

  /** The pieces the stored string splits into: the first keyword, then each further keyword after a blank. */
  function Pieces(keywords: seq<string>): (parts: seq<string>)
    requires |keywords| >= 1
    ensures |parts| == |keywords| && parts[0] == keywords[0]
    ensures forall i :: 1 <= i < |parts| ==> parts[i] == " " + keywords[i]
  {
    [keywords[0]] + Spaced(keywords[1..])
  }

  lemma StoredAsPieces(keywords: seq<string>)
    requires |keywords| >= 1
    ensures JoinKeywords(keywords) == Join(",", Pieces(keywords))
  {
    var parts := Pieces(keywords);
    if |keywords| > 1 {
      JoinSpaced(keywords[1..]);
      assert parts[1..] == Spaced(keywords[1..]);
    }
  }

  lemma CleanPiece(k: string)
    requires CleanKeyword(k)
    ensures ',' !in " " + k && PhpTruthy(" " + k) && Trim(" " + k) == k
  {
    assert (" " + k)[0] == ' ';
    TrimLeadingBlank(k);
  }

  lemma CleanPieces(keywords: seq<string>)
    requires |keywords| >= 1
    requires forall i :: 0 <= i < |keywords| ==> CleanKeyword(keywords[i])
    ensures forall i :: 0 <= i < |keywords| ==> ',' !in Pieces(keywords)[i] && PhpTruthy(Pieces(keywords)[i])
    ensures forall i :: 0 <= i < |keywords| ==> Trim(Pieces(keywords)[i]) == keywords[i]
  {
    var parts := Pieces(keywords);
    forall i | 0 <= i < |parts|
      ensures ',' !in parts[i] && PhpTruthy(parts[i]) && Trim(parts[i]) == keywords[i]
    {
      if i == 0 {
        TrimTrimmed(keywords[0]);
      } else {
        CleanPiece(keywords[i]);
      }
    }
  }

  /** Keywords that are clean come back unchanged from being stored and read again. */
  lemma KeywordsRoundTrip(keywords: seq<string>)
    requires forall i :: 0 <= i < |keywords| ==> CleanKeyword(keywords[i])
    ensures PrepareKeywords(JoinKeywords(keywords)) == keywords
  {
    if |keywords| == 0 {
      assert Split("", ',') == [""];
    } else {
      var parts := Pieces(keywords);
      StoredAsPieces(keywords);
      CleanPieces(keywords);
      SplitJoin(parts, ',');
      assert ArrayFilter(parts) == parts;
    }
  }

  /** A segment of blanks is not dropped: it is trimmed to "" and fails the per-keyword `required` rule later. */
  lemma BlankKeywordSurvives(k: string)
    requires CleanKeyword(k)
    ensures PrepareKeywords(k + ", ") == [k, ""]
  {
    assert ArrayFilter(Split(k + ", ", ',')) == [k, " "] by {
      SplitAfterKeyword(k);
      assert ArrayFilter([" "]) == [" "];
    }
    PrepareTwo(k + ", ", k, " ");
    assert Trim(k) == k by { TrimTrimmed(k); }
    assert Trim(" ") == "" by {
      TrimLeadingBlank("");
      assert " " + "" == " ";
    }
  }

  lemma PrepareTwo(input: string, a: string, b: string)
    requires ArrayFilter(Split(input, ',')) == [a, b]
    ensures PrepareKeywords(input) == [Trim(a), Trim(b)]
  {
    var prepared := PrepareKeywords(input);
    assert |prepared| == 2 && prepared[0] == Trim(a) && prepared[1] == Trim(b);
  }

  lemma SplitAfterKeyword(k: string)
    requires CleanKeyword(k)
    ensures Split(k + ", ", ',') == [k, " "]
  {
    assert k + ", " == Join(",", [k, " "]) by {
      assert Join(",", [" "]) == " ";
      assert [k, " "][1..] == [" "];
    }
    SplitJoin([k, " "], ',');
  }

  /** The keyword rules: at least three, each non-blank and at most 255 characters. */
  predicate KeywordsValid(keywords: seq<string>)
  {
    |keywords| >= 3 && forall i :: 0 <= i < |keywords| ==> Trim(keywords[i]) != "" && |keywords[i]| <= 255
  }

  // ---- reviewer list ----

  /** `country_id ?: 0`: a missing country and country 0 fall in one group. */
  function Pool(country: Option<nat>): nat
  {
    country.GetOr(0)
  }

  /** How many reviewers fall in country group `k`. */
  function CountIn(countries: seq<Option<nat>>, k: nat): (n: nat)
    ensures n <= |countries|
  {
    if |countries| == 0 then 0
    else (if Pool(countries[0]) == k then 1 else 0) + CountIn(countries[1..], k)
  }

  /** The closure on `reviewers`: no country group holds more than three of the listed reviewers. */
  predicate CountryCapOk(countries: seq<Option<nat>>)
  {
    forall i :: 0 <= i < |countries| ==> CountIn(countries, Pool(countries[i])) <= 3
  }

  lemma {:induction false} CountedIsPresent(countries: seq<Option<nat>>, k: nat)
    requires CountIn(countries, k) > 0
    ensures exists i :: 0 <= i < |countries| && Pool(countries[i]) == k
  {
    if Pool(countries[0]) != k {
      CountedIsPresent(countries[1..], k);
      var i :| 0 <= i < |countries[1..]| && Pool(countries[1..][i]) == k;
      assert countries[i + 1] == countries[1..][i];
    }
  }

  /** The cap holds exactly when every country group, the pooled "no country" group included, has at most three reviewers. */
  lemma CountryCapMeaning(countries: seq<Option<nat>>)
    ensures CountryCapOk(countries) <==> forall k: nat :: CountIn(countries, k) <= 3
  {
    if CountryCapOk(countries) {
      forall k: nat ensures CountIn(countries, k) <= 3
      {
        if CountIn(countries, k) > 0 {
          CountedIsPresent(countries, k);
          var i :| 0 <= i < |countries| && Pool(countries[i]) == k;
          assert CountIn(countries, Pool(countries[i])) <= 3;
        }
      }
    } else {
      var i :| 0 <= i < |countries| && CountIn(countries, Pool(countries[i])) > 3;
      assert !(CountIn(countries, Pool(countries[i])) <= 3);
    }
  }

  lemma {:induction false} PoolingCounts(countries: seq<Option<nat>>, i: nat, k: nat)
    requires i < |countries| && countries[i] == None
    ensures CountIn(countries[i := Some(0)], k) == CountIn(countries, k)
  {
    if i > 0 {
      PoolingCounts(countries[1..], i - 1, k);
      assert countries[i := Some(0)][1..] == countries[1..][i - 1 := Some(0)];
    }
  }

  /** A reviewer without a country counts exactly like one from country 0. */
  lemma NoCountryPooledWithZero(countries: seq<Option<nat>>, i: nat)
    requires i < |countries| && countries[i] == None
    ensures CountryCapOk(countries[i := Some(0)]) <==> CountryCapOk(countries)
  {
    var pooled := countries[i := Some(0)];
    forall j | 0 <= j < |countries|
      ensures Pool(pooled[j]) == Pool(countries[j])
      ensures CountIn(pooled, Pool(pooled[j])) == CountIn(countries, Pool(countries[j]))
    {
      PoolingCounts(countries, i, Pool(countries[j]));
    }
  }

  /** No two entries are equal (the `distinct` rule, which compares exactly). */
  predicate Distinct(emails: seq<string>)
  {
    forall i, j :: 0 <= i < j < |emails| ==> emails[i] != emails[j]
  }

  /**
   * The rules for `reviewers` and `submit`, over the reviewers of the current revision:
   * at least `minimum_reviews` of them, at most three per country group, and their
   * e-mails present, distinct and at most 255 characters long.
   */
  predicate ReviewerListValid(countries: seq<Option<nat>>, emails: seq<string>, minimumReviews: nat)
    requires |countries| == |emails|
    ensures ReviewerListValid(countries, emails, minimumReviews) ==>
      |emails| >= minimumReviews && forall k: nat :: CountIn(countries, k) <= 3
  {
    CountryCapMeaning(countries);
    |emails| >= minimumReviews && CountryCapOk(countries) && Distinct(emails)
    && forall i :: 0 <= i < |emails| ==> emails[i] != "" && |emails[i]| <= 255
  }

  /** Four reviewers from the same country group never pass, whatever the minimum. */
  lemma FourFromOneCountryRejected(countries: seq<Option<nat>>, emails: seq<string>, minimumReviews: nat, k: nat)
    requires |countries| == |emails| && CountIn(countries, k) >= 4
    ensures !ReviewerListValid(countries, emails, minimumReviews)
  {
    CountryCapMeaning(countries);
  }

  // ---- per-action field rules ----

  /** An uploaded file, seen through its extension. */
  datatype Upload = Upload(extension: string)

  predicate IsPdf(f: Option<Upload>) { f.Some? && f.value.extension == "pdf" }

  predicate IsWord(f: Option<Upload>) { f.Some? && (f.value.extension == "doc" || f.value.extension == "docx") }

  /** A `required` string: present and not blank. */
  predicate Filled(s: Option<string>) { s.Some? && Trim(s.value) != "" }

  /** `invite`: the minimum number of reviews is at least 1. */
  predicate InviteValid(minimumReviews: int) { minimumReviews >= 1 }

  /** `send-to-eic`: the comments for the editor-in-chief are required. */
  predicate SendToEicValid(comments: Option<string>) { Filled(comments) && |comments.value| <= 65535 }

  /** `update-similarity`: a similarity between 0 and 100. */
  predicate SimilarityValid(similarity: int) { 0 <= similarity <= 100 }

  /** `update-pages`: a page count of at least 0 and a Word source file. */
  predicate PagesValid(pages: int, sourceFile: Option<Upload>) { pages >= 0 && IsWord(sourceFile) }

  /** `grammar-checked`: a Word source file. */
  predicate GrammarUpdatedValid(sourceFile: Option<Upload>) { IsWord(sourceFile) }

  /** The fields of a `revise` request. */
  datatype ReviseInput = ReviseInput(
    title: Option<string>,
    abstractText: Option<string>,
    keywords: seq<string>,
    commentReply: Option<string>,
    commentReplyFile: Option<Upload>,
    anonymousFile: Option<Upload>,
    sourceFile: Option<Upload>)

  /** The title is not used by a revision of any other manuscript (revisions of the same manuscript are ignored). */
  predicate TitleFree(revisions: seq<Revision>, m: nat, title: string)
  {
    forall i :: 0 <= i < |revisions| && revisions[i].manuscriptId != m ==> revisions[i].title != title
  }

  /**
   * `revise`: title (unique outside the manuscript, at most 255), abstract, at least three
   * keywords, the reply to the comments, the reply as a PDF, the anonymous PDF and the
   * Word source are all required.
   */
  predicate ReviseValid(revisions: seq<Revision>, m: nat, input: ReviseInput)
    ensures ReviseValid(revisions, m, input) ==>
      |input.keywords| >= 3 && input.commentReplyFile.Some? && input.anonymousFile.Some? && input.sourceFile.Some?
      && input.title.Some? && forall i :: 0 <= i < |revisions| && revisions[i].title == input.title.value ==> revisions[i].manuscriptId == m
  {
    Filled(input.title) && |input.title.value| <= 255 && TitleFree(revisions, m, input.title.value)
    && Filled(input.abstractText) && KeywordsValid(input.keywords)
    && Filled(input.commentReply) && IsPdf(input.commentReplyFile) && IsPdf(input.anonymousFile) && IsWord(input.sourceFile)
  }

  /** Leaving out any of the four reply and file fields fails a revise request. */
  lemma ReviseNeedsAllFiles(revisions: seq<Revision>, m: nat, input: ReviseInput)
    requires input.commentReply.None? || input.commentReplyFile.None? || input.anonymousFile.None? || input.sourceFile.None?
    ensures !ReviseValid(revisions, m, input)
  {
  }

  /** `update-comment-reply`: the reply file is required when a revision of the manuscript at the previous index has none. */
  predicate ReplyFileRequired(revisions: seq<Revision>, m: nat, currentIndex: nat)
  {
    exists j :: 0 <= j < |revisions| && revisions[j].manuscriptId == m && revisions[j].index + 1 == currentIndex
      && revisions[j].commentReplyFile.None?
  }

  predicate CommentReplyValid(revisions: seq<Revision>, m: nat, currentIndex: nat, reply: Option<string>, file: Option<Upload>)
  {
    Filled(reply) && (if ReplyFileRequired(revisions, m, currentIndex) then IsPdf(file) else file.None? || IsPdf(file))
  }

  /** On the first revision the reply file is never required; a reply file already given on the previous revision makes it optional. */
  lemma ReplyFileRule(revisions: seq<Revision>, m: nat, currentIndex: nat, j: nat)
    requires j < |revisions| && revisions[j].manuscriptId == m && revisions[j].index + 1 == currentIndex
    requires forall i :: 0 <= i < |revisions| && i != j && revisions[i].manuscriptId == m ==> revisions[i].index != revisions[j].index
    ensures ReplyFileRequired(revisions, m, currentIndex) <==> revisions[j].commentReplyFile.None?
    ensures !ReplyFileRequired(revisions, m, 0)
  {
  }

  // ---- attribute labels ----

  /** PCRE's `.`: any character but a line feed. */
  predicate AnyChar(c: char) { c != '\n' }

  /**
   * `preg_replace_callback('/.(\d)./', ...)` as written: scanning left to right, each
   * character, digit, character triple becomes a blank, the digit plus one, and a blank.
   */
  function RewriteDigitsAsWritten(s: string): string
    decreases |s|
  {
    if |s| < 3 then s
    else if AnyChar(s[0]) && IsDigit(s[1]) && AnyChar(s[2]) then
      " " + NatToString(DigitValue(s[1]) + 1) + " " + RewriteDigitsAsWritten(s[3..])
    else [s[0]] + RewriteDigitsAsWritten(s[1..])
  }

  /** The `str_replace` that follows: " id" and " accepted" removed, '_' shown as a blank. */
  function Polish(s: string): (shown: string)
    ensures '_' !in shown
  {
    var trimmed := ReplaceAll(ReplaceAll(s, " id", ""), " accepted", "");
    var shown := ReplaceAll(trimmed, "_", " ");
    assert forall i :: 0 <= i < |shown| ==> shown[i] != '_' by {
      if |trimmed| > 0 {
        ReplaceCharAt(trimmed, '_', ' ', 0);
      }
      forall i | 0 <= i < |shown| ensures shown[i] != '_' {
        ReplaceCharAt(trimmed, '_', ' ', i);
      }
    }
    shown
  }

  /** `attributes()` as written. */
  function LabelAsWritten(key: string): (shown: string)
    ensures '_' !in shown
  {
    Polish(RewriteDigitsAsWritten(key))
  }

  /** No character of `s` is a decimal digit. */
  predicate NoDigits(s: string)
    decreases |s|
  {
    |s| == 0 || (!IsDigit(s[0]) && NoDigits(s[1..]))
  }

  /** A digit-free stretch followed by something that does not start with a digit passes through the rewrite untouched. */
  lemma {:induction false} RewriteSkipsPlain(a: string, b: string)
    requires NoDigits(a) && (|b| > 0 ==> !IsDigit(b[0]))
    ensures RewriteDigitsAsWritten(a + b) == a + RewriteDigitsAsWritten(b)
    decreases |a|
  {
    if |a| == 0 {
      assert a + b == b;
    } else {
      var s := a + b;
      assert s[0] == a[0] && s[1..] == a[1..] + b;
      if |s| < 3 {
        assert RewriteDigitsAsWritten(b) == b;
      } else {
        assert !IsDigit(s[1]) by {
          if |a| > 1 { assert s[1] == a[1..][0]; } else { assert s[1] == b[0]; }
        }
        PlainStep(s);
        RewriteSkipsPlain(a[1..], b);
        assert a == [a[0]] + a[1..];
      }
    }
  }

  /** The rewrite passes over a character not followed by a digit. */
  lemma PlainStep(s: string)
    requires |s| >= 3 && !IsDigit(s[1])
    ensures RewriteDigitsAsWritten(s) == [s[0]] + RewriteDigitsAsWritten(s[1..])
  {
  }

  /** A single-digit index between two dots is shown one higher, between blanks. */
  lemma SingleDigitIndex(name: string, d: nat, field: string)
    requires d < 10 && NoDigits(name) && NoDigits(field)
    ensures RewriteDigitsAsWritten(name + "." + [DigitChar(d)] + "." + field) == name + " " + NatToString(d + 1) + " " + field
  {
    var tail := "." + [DigitChar(d)] + "." + field;
    Regroup(name, ".", [DigitChar(d)], ".", field);
    RewriteSkipsPlain(name, tail);
    DigitRoundTrip(d);
    IndexStep(tail, field);
    Regroup(name, " ", NatToString(d + 1), " ", field);
  }

  /** A character, a digit and a character are replaced, and the rewrite goes on after them. */
  lemma IndexStep(s: string, rest: string)
    requires |s| >= 3 && AnyChar(s[0]) && IsDigit(s[1]) && AnyChar(s[2]) && s[3..] == rest && NoDigits(rest)
    ensures RewriteDigitsAsWritten(s) == " " + NatToString(DigitValue(s[1]) + 1) + " " + rest
  {
    RewriteSkipsPlain(rest, "");
    assert rest + "" == rest;
  }

  /** A two-digit index: only the first digit is taken, bumped, and the second digit is swallowed, the dot after it left behind. */
  lemma TwoDigitIndexAsWritten(name: string, c1: char, c2: char, field: string)
    requires IsDigit(c1) && IsDigit(c2) && NoDigits(name) && NoDigits(field)
    ensures RewriteDigitsAsWritten(name + ['.', c1, c2, '.'] + field)
         == name + " " + NatToString(DigitValue(c1) + 1) + " " + ("." + field)
  {
    var dots := ['.', c1, c2, '.'];
    var tail := dots + field;
    Associate(name, dots, field);
    RewriteSkipsPlain(name, tail);
    var rest := "." + field;
    assert NoDigits(rest) by { assert rest[1..] == field; }
    assert tail[3..] == rest;
    IndexStep(tail, rest);
    Regroup(name, " ", NatToString(DigitValue(c1) + 1), " ", rest);
  }

  /** The reviewer at position 10 is labelled "reviewers 2 .email" instead of "reviewers 11 email". */
  lemma EleventhReviewerLabel()
    ensures RewriteDigitsAsWritten("reviewers" + ".10." + "email") == "reviewers" + " " + "2" + " " + ".email"
  {
    assert NoDigits("reviewers") && NoDigits("email");
    TwoDigitIndexAsWritten("reviewers", '1', '0', "email");
    assert ".10." == ['.', '1', '0', '.'];
    assert NatToString(DigitValue('1') + 1) == "2";
    assert "." + "email" == ".email";
  }

  /** Each dot-separated piece that is a number is shown one higher; the pieces are joined by blanks. */
  function RewriteIndices(key: string): string
  {
    Join(" ", BumpPieces(Split(key, '.')))
  }

  function BumpPieces(pieces: seq<string>): (r: seq<string>)
    ensures |r| == |pieces|
    ensures forall i :: 0 <= i < |pieces| ==> r[i] == Bump(pieces[i])
  {
    seq(|pieces|, i requires 0 <= i < |pieces| => Bump(pieces[i]))
  }

  function Bump(piece: string): string
  {
    if |piece| > 0 && AllDigits(piece) then NatToString(ParseNat(piece) + 1) else piece
  }

  /** `attributes()` with the index read as a whole number. */
  function Label(key: string): (shown: string)
    ensures '_' !in shown
  {
    Polish(RewriteIndices(key))
  }

  /** Any index, however many digits, is shown one higher between blanks, and the field name after it is kept whole. */
  lemma IndexLabel(name: string, n: nat, field: string)
    requires '.' !in name && '.' !in field && NoDigits(name) && NoDigits(field)
    ensures RewriteIndices(name + "." + NatToString(n) + "." + field) == name + " " + NatToString(n + 1) + " " + field
  {
    var digits := NatToString(n);
    var key := name + "." + digits + "." + field;
    calc {
      RewriteIndices(key);
      Join(" ", BumpPieces(Split(key, '.')));
      { assert '.' !in digits by { assert forall i :: 0 <= i < |digits| ==> IsDigit(digits[i]); }
        SplitThree(name, digits, field, '.'); }
      Join(" ", BumpPieces([name, digits, field]));
      { BumpOnlyIndex(name, n, field); }
      Join(" ", [name, NatToString(n + 1), field]);
      { JoinThree(" ", name, NatToString(n + 1), field); }
      name + " " + NatToString(n + 1) + " " + field;
    }
  }

  /** Of a name, an index and a field name, only the index is bumped. */
  lemma BumpOnlyIndex(name: string, n: nat, field: string)
    requires NoDigits(name) && NoDigits(field)
    ensures BumpPieces([name, NatToString(n), field]) == [name, NatToString(n + 1), field]
  {
    ParseNatToString(n);
    assert Bump(name) == name by { if |name| > 0 { assert !IsDigit(name[0]); } }
    assert Bump(field) == field by { if |field| > 0 { assert !IsDigit(field[0]); } }
  }

  /** For single-digit indices the corrected rewrite agrees with the one as written. */
  lemma LabelsAgreeBelowTen(name: string, d: nat, field: string)
    requires d < 10 && '.' !in name && '.' !in field && NoDigits(name) && NoDigits(field)
    ensures RewriteIndices(name + "." + [DigitChar(d)] + "." + field) == RewriteDigitsAsWritten(name + "." + [DigitChar(d)] + "." + field)
  {
    SingleDigitIndex(name, d, field);
    assert NatToString(d) == [DigitChar(d)];
    IndexLabel(name, d, field);
  }

  /** A string with no " id", no " accepted" and no '_' comes out of the `str_replace` step unchanged. */
  lemma PolishKeeps(s: string)
    requires forall i :: !OccursAt(s, i, " id") && !OccursAt(s, i, " accepted")
    requires '_' !in s
    ensures Polish(s) == s
  {
    ReplaceAbsent(s, " id", "");
    ReplaceAbsent(s, " accepted", "");
    forall i
      ensures !OccursAt(s, i, "_")
    {
      if 0 <= i < |s| {
        assert s[i..i + 1] == [s[i]];
      }
    }
    ReplaceAbsent(s, "_", " ");
  }

  /** In "name index field" with blank-free parts, a pattern that starts with a blank and then a non-digit occurs
      only where the field itself starts with the rest of the pattern. */
  lemma BlankPatternAbsent(name: string, digits: string, field: string, pat: string)
    requires ' ' !in name && ' ' !in field && |digits| >= 1 && AllDigits(digits)
    requires |pat| >= 2 && pat[0] == ' ' && !IsDigit(pat[1]) && !OccursAt(field, 0, pat[1..])
    ensures forall i :: !OccursAt(name + " " + digits + " " + field, i, pat)
  {
  }

  /** With the index read as a whole number, "name.n.field" is shown as "name n+1 field" whenever the parts are plain
      words and the field is not one of the suffixes `str_replace` drops. */
  lemma LabelOfIndex(name: string, n: nat, field: string)
    requires '.' !in name && '.' !in field && NoDigits(name) && NoDigits(field)
    requires ' ' !in name && ' ' !in field && '_' !in name && '_' !in field
    requires !OccursAt(field, 0, "id") && !OccursAt(field, 0, "accepted")
    ensures Label(name + "." + NatToString(n) + "." + field) == name + " " + NatToString(n + 1) + " " + field
  {
    IndexLabel(name, n, field);
    PlainShown(name, NatToString(n + 1), field);
  }

  /** As written, a single-digit index gives the same label as the whole-number reading. */
  lemma LabelOfSingleDigitAsWritten(name: string, d: nat, field: string)
    requires d < 10 && NoDigits(name) && NoDigits(field)
    requires ' ' !in name && ' ' !in field && '_' !in name && '_' !in field
    requires !OccursAt(field, 0, "id") && !OccursAt(field, 0, "accepted")
    ensures LabelAsWritten(name + "." + [DigitChar(d)] + "." + field) == name + " " + NatToString(d + 1) + " " + field
  {
    SingleDigitIndex(name, d, field);
    PlainShown(name, NatToString(d + 1), field);
  }

  /** As written, a two-digit index shows its first digit bumped and keeps the dot before the field. */
  lemma LabelOfTwoDigitAsWritten(name: string, c1: char, c2: char, field: string)
    requires IsDigit(c1) && IsDigit(c2) && NoDigits(name) && NoDigits(field)
    requires ' ' !in name && ' ' !in field && '_' !in name && '_' !in field
    ensures LabelAsWritten(name + ['.', c1, c2, '.'] + field)
         == name + " " + NatToString(DigitValue(c1) + 1) + " " + ("." + field)
  {
    TwoDigitIndexAsWritten(name, c1, c2, field);
    DotFieldShown(name, NatToString(DigitValue(c1) + 1), field);
  }

  /** A field that kept its dot passes through `str_replace` unchanged. */
  lemma DotFieldShown(name: string, digits: string, field: string)
    requires ' ' !in name && ' ' !in field && '_' !in name && '_' !in field
    requires |digits| >= 1 && AllDigits(digits)
    ensures Polish(name + " " + digits + " " + ("." + field)) == name + " " + digits + " " + ("." + field)
  {
    var dotted := "." + field;
    assert dotted[0] == '.';
    assert !OccursAt(dotted, 0, "id") && !OccursAt(dotted, 0, "accepted") by {
      if |dotted| >= 2 { assert dotted[..2][0] == '.'; }
    }
    PlainShown(name, digits, dotted);
  }

  /** "name digits field" with plain parts passes through `str_replace` unchanged. */
  lemma PlainShown(name: string, digits: string, field: string)
    requires ' ' !in name && ' ' !in field && '_' !in name && '_' !in field
    requires |digits| >= 1 && AllDigits(digits)
    requires !OccursAt(field, 0, "id") && !OccursAt(field, 0, "accepted")
    ensures Polish(name + " " + digits + " " + field) == name + " " + digits + " " + field
  {
    var s := name + " " + digits + " " + field;
    assert " id"[1..] == "id" && " accepted"[1..] == "accepted";
    BlankPatternAbsent(name, digits, field, " id");
    BlankPatternAbsent(name, digits, field, " accepted");
    assert '_' !in s by {
      forall i | 0 <= i < |digits| ensures digits[i] != '_' { assert IsDigit(digits[i]); }
    }
    PolishKeeps(s);
  }
}

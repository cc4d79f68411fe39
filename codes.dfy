/**
 * The codes and names derived from a manuscript and its revisions: the revision code
 * "R{index}", the manuscript code as shown (prefixed by the revision code once the
 * manuscript has been revised), the generated "PMSL-yy-nnnn" code, the progress `step` of
 * the submission wizard, and the stored name of an uploaded file.
 */
module Codes {
  import opened Wrappers
  import opened Text
  import opened Records
  import StatusEnum

  /** The `code` accessor of a revision: "R" and the index, a missing index read as 0. */
  function RevisionCode(index: Option<nat>): (code: string)
    ensures |code| >= 2 && code[0] == 'R' && AllDigits(code[1..])
    ensures ParseNat(code[1..]) == index.GetOr(0)
  {
    var digits := NatToString(index.GetOr(0));
    ParseNatToString(index.GetOr(0));
    assert ("R" + digits)[1..] == digits;
    "R" + digits
  }

  /**
   * The `code` accessor of a manuscript: nothing before it is saved; the stored code
   * behind the current revision's code once that revision has a positive index; the
   * stored code alone otherwise.
   */
  function ManuscriptCode(saved: bool, raw: string, current: Option<Revision>): (code: Option<string>)
    ensures code.None? <==> !saved
    ensures code.Some? ==> |raw| <= |code.value| && code.value[|code.value| - |raw|..] == raw
  {
    if !saved then None
    else if current.Some? && current.value.index > 0 then
      var prefix := RevisionCode(Some(current.value.index)) + "-";
      assert (prefix + raw)[|prefix|..] == raw;
      Some(prefix + raw)
    else Some(raw)
  }

  /** The displayed code always ends in the stored one, and says which revision is current exactly when it is not the first. */
  lemma ManuscriptCodeShape(saved: bool, raw: string, current: Option<Revision>)
    ensures ManuscriptCode(saved, raw, current).None? <==> !saved
    ensures saved && (current.None? || current.value.index == 0) ==> ManuscriptCode(saved, raw, current) == Some(raw)
    ensures saved && current.Some? && current.value.index > 0 ==>
      var code := ManuscriptCode(saved, raw, current).value;
      var prefix := RevisionCode(Some(current.value.index));
      |code| == |prefix| + 1 + |raw| && code[..|prefix|] == prefix && code[|prefix|] == '-' && code[|prefix| + 1..] == raw
      && ParseNat(prefix[1..]) == current.value.index
  {
  }

  /** `generateCodeAttribute`: "PMSL", the two-digit year and this year's manuscript count plus one, zero-padded to four digits. */
  function GeneratedCode(year: nat, countThisYear: nat): (code: string)
    ensures |code| >= 12 && code[..5] == "PMSL-"
  {
    "PMSL-" + ZeroPad(year % 100, 2) + "-" + ZeroPad(countThisYear + 1, 4)
  }

  /** A generated code splits into its three parts, and its number reads back as the count plus one. */
  lemma GeneratedCodeParts(year: nat, countThisYear: nat)
    ensures var code := GeneratedCode(year, countThisYear);
      Split(code, '-') == ["PMSL", ZeroPad(year % 100, 2), ZeroPad(countThisYear + 1, 4)]
    ensures |ZeroPad(countThisYear + 1, 4)| >= 4 && ParseNat(ZeroPad(countThisYear + 1, 4)) == countThisYear + 1
    ensures |ZeroPad(year % 100, 2)| == 2 && ParseNat(ZeroPad(year % 100, 2)) == year % 100
  {
    var yy, n := ZeroPad(year % 100, 2), ZeroPad(countThisYear + 1, 4);
    assert '-' !in yy by { assert forall i :: 0 <= i < |yy| ==> IsDigit(yy[i]); }
    assert '-' !in n by { assert forall i :: 0 <= i < |n| ==> IsDigit(n[i]); }
    assert '-' !in "PMSL";
    assert "PMSL-" == "PMSL" + ['-'];
    SplitThree("PMSL", yy, n, '-');
    ZeroPadValue(countThisYear + 1, 4);
    ZeroPadValue(year % 100, 2);
  }

  /** Within a year, two different counts never produce the same code. */
  lemma GeneratedCodesDiffer(year: nat, a: nat, b: nat)
    requires a != b
    ensures GeneratedCode(year, a) != GeneratedCode(year, b)
  {
    GeneratedCodeParts(year, a);
    GeneratedCodeParts(year, b);
  }

  /** The progress flags of the submission wizard. */
  datatype StepFlags = StepFlags(basic: bool, reviewer: bool, author: bool, status: StatusEnum.Status)

  /** A live reviewer row on some revision of manuscript `m`. */
  predicate HasReviewerRow(t: Tables, m: nat)
  {
    exists i :: 0 <= i < |t.reviewers| && t.reviewers[i].Some? && t.reviewers[i].value.revisionId < |t.revisions|
      && t.revisions[t.reviewers[i].value.revisionId].manuscriptId == m
  }

  /** An author row on some revision of manuscript `m`. */
  predicate HasAuthorRow(t: Tables, m: nat)
  {
    exists i :: 0 <= i < |t.revisionAuthors| && t.revisionAuthors[i].revisionId < |t.revisions|
      && t.revisions[t.revisionAuthors[i].revisionId].manuscriptId == m
  }

  /**
   * `step` of a stored manuscript (`Some(m)`) or of one not yet saved (`None`): saved,
   * has reviewers, has authors (on any of its revisions), and the current revision's
   * status, pending when there is none.
   */
  function Step(t: Tables, m: Option<nat>): (s: StepFlags)
    ensures s.basic <==> m.Some?
    ensures m.None? ==> s == StepFlags(false, false, false, StatusEnum.Pending)
  {
    match m
    case None => StepFlags(false, false, false, StatusEnum.Pending)
    case Some(id) =>
      var current := if id < |t.manuscripts| then t.manuscripts[id].revisionId else None;
      StepFlags(true, HasReviewerRow(t, id), HasAuthorRow(t, id),
        if current.Some? && current.value < |t.revisions| then t.revisions[current.value].status else StatusEnum.Pending)
  }

  /** A revision's status shows through `step`, and a reviewer row on an older revision still counts. */
  lemma StepReadsRevisions(t: Tables, m: nat, i: nat)
    requires m < |t.manuscripts| && t.manuscripts[m].revisionId.Some? && t.manuscripts[m].revisionId.value < |t.revisions|
    requires i < |t.reviewers| && t.reviewers[i].Some? && t.reviewers[i].value.revisionId < |t.revisions|
    requires t.revisions[t.reviewers[i].value.revisionId].manuscriptId == m
    ensures Step(t, Some(m)).status == t.revisions[t.manuscripts[m].revisionId.value].status
    ensures Step(t, Some(m)).reviewer
  {
  }

  /** The revision file columns an upload can be stored in. */
  datatype FileColumn = SourceFile | AnonymousFile | CommentReplyFile | FormattedPaper | ProofreaderPaper | CorrectionFile | OtherFile
  {
    function Name(): string
    {
      match this
      case SourceFile => "source_file"
      case AnonymousFile => "anonymous_file"
      case CommentReplyFile => "comment_reply_file"
      case FormattedPaper => "formatted_paper"
      case ProofreaderPaper => "proofreader_paper"
      case CorrectionFile => "correction_file"
      case OtherFile => "other_file"
    }

    /** The storage directory of the column. */
    function Directory(): string
    {
      match this
      case SourceFile => "source_files"
      case AnonymousFile => "anonymous_files"
      case CommentReplyFile => "comment_reply_files"
      case FormattedPaper => "formatted_paper"
      case ProofreaderPaper => "proofreader_paper"
      case CorrectionFile => "correction_file"
      case OtherFile => "other_file"
    }
  }

  /**
   * The name an upload is stored under, within the column's directory: the revision code
   * when the index is positive, the manuscript's stored code, the column name with '-' for
   * '_', and the lower-cased random suffix with the client extension, joined by '-'.
   */
  function UploadName(index: nat, rawCode: string, column: FileColumn, suffix: string, ext: string): (name: string)
    ensures var tail := ReplaceAll(column.Name(), "_", "-") + "-" + (suffix + "." + ext);
      |tail| <= |name| && name[|name| - |tail|..] == tail
  {
    UploadTail(if index > 0 then RevisionCode(Some(index)) else "", rawCode, column, suffix, ext);
    Join("-", ArrayFilter([
      if index > 0 then RevisionCode(Some(index)) else "",
      rawCode,
      ReplaceAll(column.Name(), "_", "-"),
      suffix + "." + ext]))
  }

  /** The column part of an upload name has no '_' left and the same length as the column name. */
  lemma ColumnSlug(column: FileColumn)
    ensures var slug := ReplaceAll(column.Name(), "_", "-");
      |slug| == |column.Name()| && '_' !in slug
      && forall i :: 0 <= i < |slug| ==> slug[i] == if column.Name()[i] == '_' then '-' else column.Name()[i]
  {
    var name := column.Name();
    var slug := ReplaceAll(name, "_", "-");
    forall i | 0 <= i < |name|
      ensures |slug| == |name| && slug[i] == if name[i] == '_' then '-' else name[i]
    {
      ReplaceCharAt(name, '_', '-', i);
    }
  }

  lemma SlugTruthy(column: FileColumn)
    ensures PhpTruthy(ReplaceAll(column.Name(), "_", "-"))
  {
    var slug := ReplaceAll(column.Name(), "_", "-");
    ColumnSlug(column);
    assert slug[0] == column.Name()[0];
  }

  /** The column slug and the file name always end an upload name, whatever leads it. */
  lemma UploadTail(lead: string, rawCode: string, column: FileColumn, suffix: string, ext: string)
    ensures var slug := ReplaceAll(column.Name(), "_", "-"); var file := suffix + "." + ext;
      var j := Join("-", ArrayFilter([lead, rawCode, slug, file])); var tail := slug + "-" + file;
      |tail| <= |j| && j[|j| - |tail|..] == tail
  {
    var file := suffix + "." + ext;
    assert PhpTruthy(file) by { assert file[|suffix|] == '.'; }
    SlugTruthy(column);
    JoinedTail(lead, rawCode, ReplaceAll(column.Name(), "_", "-"), file, "-");
  }

  /** Two truthy last pieces survive `array_filter`, and the joined string ends with them. */
  lemma JoinedTail(a: string, b: string, c: string, d: string, sep: string)
    requires PhpTruthy(c) && PhpTruthy(d)
    ensures var j := Join(sep, ArrayFilter([a, b, c, d])); var tail := c + sep + d;
      |tail| <= |j| && j[|j| - |tail|..] == tail
  {
    KeepLastTwo(a, b, c, d);
    JoinEndsWith(sep, ArrayFilter([a, b]), c, d);
  }

  lemma KeepLastTwo(a: string, b: string, c: string, d: string)
    requires PhpTruthy(c) && PhpTruthy(d)
    ensures ArrayFilter([a, b, c, d]) == ArrayFilter([a, b]) + [c, d]
  {
    assert [a, b, c, d][1..] == [b, c, d];
    assert [b, c, d][1..] == [c, d];
    assert [c, d][1..] == [d];
    assert [a, b][1..] == [b];
  }

  lemma {:induction false} JoinEndsWith(sep: string, xs: seq<string>, c: string, d: string)
    ensures var j := Join(sep, xs + [c, d]); var tail := c + sep + d;
      |tail| <= |j| && j[|j| - |tail|..] == tail
    decreases |xs|
  {
    if |xs| == 0 {
      assert xs + [c, d] == [c, d];
      assert [c, d][1..] == [d];
    } else {
      JoinEndsWith(sep, xs[1..], c, d);
      assert (xs + [c, d])[1..] == xs[1..] + [c, d];
    }
  }

  lemma KeepAllFour(a: string, b: string, c: string, d: string)
    requires PhpTruthy(b) && PhpTruthy(c) && PhpTruthy(d)
    ensures ArrayFilter([a, b, c, d]) == if PhpTruthy(a) then [a, b, c, d] else [b, c, d]
  {
    assert [a, b, c, d][1..] == [b, c, d];
    assert ArrayFilter([b, c, d]) == [b, c, d];
  }

  /** The revision code leads an upload name exactly when the revision is not the first; the rest is always code, column and suffix. */
  lemma UploadNameShape(index: nat, rawCode: string, column: FileColumn, suffix: string, ext: string)
    requires PhpTruthy(rawCode)
    ensures var rest := rawCode + "-" + ReplaceAll(column.Name(), "_", "-") + "-" + (suffix + "." + ext);
      UploadName(index, rawCode, column, suffix, ext) == if index > 0 then RevisionCode(Some(index)) + "-" + rest else rest
  {
    var slug := ReplaceAll(column.Name(), "_", "-");
    SlugTruthy(column);
    var file := suffix + "." + ext;
    assert PhpTruthy(file) by { assert file[|suffix|] == '.'; }
    var lead := if index > 0 then RevisionCode(Some(index)) else "";
    KeepAllFour(lead, rawCode, slug, file);
    JoinThree("-", rawCode, slug, file);
    if index > 0 {
      assert PhpTruthy(lead) by { assert lead[0] == 'R'; }
      assert [lead, rawCode, slug, file][1..] == [rawCode, slug, file];
    }
  }
}

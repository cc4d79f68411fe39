/**
 * What the console jobs and the e-mail verification listener do to the tables, as
 * functions of the tables they start from: the reviewer re-invitation and reminder
 * sweeps, the merge of a guest into the author who registers with its e-mail, and the
 * retention sweep over the files of rejected, withdrawn and deleted manuscripts.
 */
module Housekeeping {
  import opened Wrappers
  import opened Records
  import opened Text
  import StatusEnum
  import RL = ReviewerLifecycle
  import SR = SweepRules

  // ---------------------------------------------------------------- reviewer sweeps

  /** A console sweep over the reviewer rows: whether it re-invites or reminds, and at which cadence. */
  datatype Sweep = Reinvite(cadence: SR.Cadence) | Remind(cadence: SR.Cadence)

  /** `manuscript:invite-reviewer` (app/Console/Commands/InviteRevisionReviewer.php), the scheduled job. */
  const ScheduledInviteSweep: Sweep := Reinvite(SR.ScheduledReinvite)
  /** `manuscript:invite-reviewer-org`. */
  const OrgInviteSweep: Sweep := Reinvite(SR.OrgReinvite)
  /** `manuscript:remind-reviewer-org`. */
  const OrgRemindSweep: Sweep := Remind(SR.OrgRemind)

  /** The sweeps' join: the revision is the current revision of some manuscript and is submitted. */
  predicate OnSubmittedCurrent(t: Tables, rev: nat)
  {
    rev < |t.revisions| && t.revisions[rev].status == StatusEnum.Submitted
    && exists m :: 0 <= m < |t.manuscripts| && t.manuscripts[m].revisionId == Some(rev)
  }

  /** Row `i` is picked by the sweep's query on `today`. */
  predicate Due(t: Tables, job: Sweep, today: Time, i: nat)
    requires i < |t.reviewers|
    ensures Due(t, job, today, i) ==> t.reviewers[i].Some? && OnSubmittedCurrent(t, t.reviewers[i].value.revisionId)
    ensures Due(t, job, today, i) && job.Remind? ==> !RL.HasReviewOn(t.reviewers[i].value, t.reviews, t.reviewers[i].value.revisionId)
  {
    t.reviewers[i].Some? &&
    var r := t.reviewers[i].value;
    match job
    case Reinvite(c) => SR.ReinviteDue(r, c, today, OnSubmittedCurrent(t, r.revisionId))
    case Remind(c) => SR.RemindDue(r, c, today, OnSubmittedCurrent(t, r.revisionId), RL.HasReviewOn(r, t.reviews, r.revisionId))
  }

  /** What the sweep does to a picked row: `invite()` without a signed-in user, or `remind()`. */
  function Touched(job: Sweep, r: ReviewerRow): ReviewerRow
  {
    match job
    case Reinvite(_) => RL.Invite(r, None)
    case Remind(_) => RL.Remind(r)
  }

  /** Row `i` after the sweep. */
  function SweptRow(t: Tables, job: Sweep, today: Time, i: nat): (row: Option<ReviewerRow>)
    requires i < |t.reviewers|
    ensures !Due(t, job, today, i) ==> row == t.reviewers[i]
    ensures Due(t, job, today, i) && job.Reinvite? ==>
      row.Some? && row.value.(inviteCount := t.reviewers[i].value.inviteCount) == t.reviewers[i].value
      && row.value.inviteCount == Some(RL.CountOrZero(t.reviewers[i].value.inviteCount) + 1)
    ensures Due(t, job, today, i) && job.Remind? ==>
      row.Some? && row.value.(remindCount := t.reviewers[i].value.remindCount) == t.reviewers[i].value
      && row.value.remindCount == Some(RL.CountOrZero(t.reviewers[i].value.remindCount) + 1)
  {
    if Due(t, job, today, i) then Some(Touched(job, t.reviewers[i].value)) else t.reviewers[i]
  }

  /** The mail a picked row's reviewer receives, about the manuscript of the row's revision. */
  function SweepNotice(t: Tables, job: Sweep, today: Time, i: nat): (n: Notification)
    requires i < |t.reviewers| && Due(t, job, today, i)
    ensures n.recipient == t.reviewers[i].value.reviewer
    ensures n.notice == (if job.Reinvite? then ReviewerInvited else ReviewReminder)
  {
    var r := t.reviewers[i].value;
    Notification(r.reviewer, if job.Reinvite? then ReviewerInvited else ReviewReminder, t.revisions[r.revisionId].manuscriptId)
  }

  /** The mails of the first `k` rows, in table order. */
  function SweepNotices(t: Tables, job: Sweep, today: Time, k: nat): seq<Notification>
    requires k <= |t.reviewers|
  {
    if k == 0 then []
    else SweepNotices(t, job, today, k - 1) + (if Due(t, job, today, k - 1) then [SweepNotice(t, job, today, k - 1)] else [])
  }

  /** Every picked row among the first `k` mails its reviewer, and every mail comes from a picked row. */
  lemma {:induction false} SweepNoticesMatchDue(t: Tables, job: Sweep, today: Time, k: nat)
    requires k <= |t.reviewers|
    ensures forall i :: 0 <= i < k && Due(t, job, today, i) ==> SweepNotice(t, job, today, i) in SweepNotices(t, job, today, k)
    ensures forall n :: n in SweepNotices(t, job, today, k) ==>
      exists i :: 0 <= i < k && Due(t, job, today, i) && n == SweepNotice(t, job, today, i)
  {
    if k > 0 {
      SweepNoticesMatchDue(t, job, today, k - 1);
    }
  }

  /** The sweep sends exactly one mail per picked row. */
  function DueCount(t: Tables, job: Sweep, today: Time, k: nat): nat
    requires k <= |t.reviewers|
  {
    if k == 0 then 0 else DueCount(t, job, today, k - 1) + (if Due(t, job, today, k - 1) then 1 else 0)
  }

  lemma {:induction false} SweepNoticeCount(t: Tables, job: Sweep, today: Time, k: nat)
    requires k <= |t.reviewers|
    ensures |SweepNotices(t, job, today, k)| == DueCount(t, job, today, k) <= k
  {
    if k > 0 {
      SweepNoticeCount(t, job, today, k - 1);
    }
  }

  /**
   * One table-wide sweep is, for each row, one run of the per-row rule: so the bounds
   * proved there (a cap on re-invitations and reminders over any sequence of days) hold
   * for the rows of the table.
   */
  lemma SweptRowIsOneRun(t: Tables, job: Sweep, today: Time, i: nat)
    requires i < |t.reviewers| && t.reviewers[i].Some?
    ensures var r := t.reviewers[i].value;
      var cur := OnSubmittedCurrent(t, r.revisionId);
      SweptRow(t, job, today, i).value ==
        match job
        case Reinvite(c) => SR.ReinviteRuns(r, c, [today], cur)
        case Remind(c) => SR.RemindRuns(r, c, [today], cur, RL.HasReviewOn(r, t.reviews, r.revisionId))
  {
    assert [today][1..] == [];
  }

  /** A sweep never changes a row's answers, so a row never carries both answers after it either. */
  lemma SweepKeepsAnswers(t: Tables, job: Sweep, today: Time, i: nat)
    requires i < |t.reviewers| && t.reviewers[i].Some? && RL.NotBothAnswered(t.reviewers[i].value)
    ensures SweptRow(t, job, today, i).Some?
    ensures SweptRow(t, job, today, i).value.acceptedAt == t.reviewers[i].value.acceptedAt
    ensures SweptRow(t, job, today, i).value.deniedAt == t.reviewers[i].value.deniedAt
    ensures RL.NotBothAnswered(SweptRow(t, job, today, i).value)
  {
  }

  // ---------------------------------------------------------------- guest merge

  /** The reviewer rows with every reference to `from` pointed at `to` (the bulk `update`). */
  function RepointReviewers(rows: seq<Option<ReviewerRow>>, from: Person, to: Person): (rows': seq<Option<ReviewerRow>>)
    ensures |rows'| == |rows|
  {
    seq(|rows|, i requires 0 <= i < |rows| =>
      if rows[i].Some? && rows[i].value.reviewer == from then Some(rows[i].value.(reviewer := to)) else rows[i])
  }

  /** The author rows with every reference to `from` pointed at `to`. */
  function RepointAuthors(rows: seq<AuthorRow>, from: Person, to: Person): (rows': seq<AuthorRow>)
    ensures |rows'| == |rows|
  {
    seq(|rows|, i requires 0 <= i < |rows| => if rows[i].author == from then rows[i].(author := to) else rows[i])
  }

  /**
   * After the merge nothing refers to the guest, every row that referred to it refers to
   * the author with all else kept, and every other row is untouched.
   */
  lemma RepointMeaning(rows: seq<Option<ReviewerRow>>, authorRows: seq<AuthorRow>, from: Person, to: Person)
    requires from != to
    ensures var rows', authorRows' := RepointReviewers(rows, from, to), RepointAuthors(authorRows, from, to);
      (forall i :: 0 <= i < |rows| ==> !(rows'[i].Some? && rows'[i].value.reviewer == from))
      && (forall i :: 0 <= i < |authorRows| ==> authorRows'[i].author != from)
      && (forall i :: 0 <= i < |rows| ==>
            if rows[i].Some? && rows[i].value.reviewer == from then rows'[i] == Some(rows[i].value.(reviewer := to))
            else rows'[i] == rows[i])
      && (forall i :: 0 <= i < |authorRows| ==>
            authorRows'[i] == if authorRows[i].author == from then authorRows[i].(author := to) else authorRows[i])
  {
  }

  /** Pointing rows at someone else keeps every row's answers. */
  lemma RepointKeepsAnswers(rows: seq<Option<ReviewerRow>>, from: Person, to: Person, i: nat)
    requires i < |rows|
    ensures RepointReviewers(rows, from, to)[i].Some? == rows[i].Some?
    ensures rows[i].Some? ==> (RepointReviewers(rows, from, to)[i].value.acceptedAt == rows[i].value.acceptedAt
                               && RepointReviewers(rows, from, to)[i].value.deniedAt == rows[i].value.deniedAt)
  {
  }

  /** Merging twice is merging once. */
  lemma RepointIdempotent(rows: seq<Option<ReviewerRow>>, authorRows: seq<AuthorRow>, from: Person, to: Person)
    requires from != to
    ensures RepointReviewers(RepointReviewers(rows, from, to), from, to) == RepointReviewers(rows, from, to)
    ensures RepointAuthors(RepointAuthors(authorRows, from, to), from, to) == RepointAuthors(authorRows, from, to)
  {
  }

  // ---------------------------------------------------------------- retention sweep

  /** 2024-01-01T00:00:00Z and 2025-01-01T00:00:00Z, the bounds of `whereYear('updated_at', 2024)`. */
  const RetentionYearStart: Time := 1704067200
  const RetentionYearEnd: Time := 1735689600

  /** A revision that makes its manuscript a target: rejected, withdrawn or deleted, last updated in 2024. */
  predicate Qualifies(r: Revision)
  {
    (r.status == StatusEnum.Rejected || r.status == StatusEnum.Withdrawn || r.status == StatusEnum.Deleted)
    && RetentionYearStart <= r.updatedAt < RetentionYearEnd
  }

  /** Manuscript `m` has at least one qualifying revision. */
  predicate Targeted(rs: seq<Revision>, m: nat)
  {
    exists i :: 0 <= i < |rs| && rs[i].manuscriptId == m && Qualifies(rs[i])
  }

  /** A revision with its source and anonymous files cleared (a query-builder update: `updated_at` is kept). */
  function Cleared(r: Revision): (r': Revision)
    ensures r'.sourceFile.None? && r'.anonymousFile.None?
    ensures r'.(sourceFile := r.sourceFile, anonymousFile := r.anonymousFile) == r
  {
    r.(sourceFile := None, anonymousFile := None)
  }

  /** The revisions with those among the first `k` that belong to a targeted manuscript cleared. */
  function ClearedUpTo(rs: seq<Revision>, k: nat): (rs': seq<Revision>)
    ensures |rs'| == |rs|
  {
    seq(|rs|, i requires 0 <= i < |rs| => if i < k && Targeted(rs, rs[i].manuscriptId) then Cleared(rs[i]) else rs[i])
  }

  /** Every revision of every targeted manuscript, the current one included, cleared. */
  function ClearedRevisions(rs: seq<Revision>): (rs': seq<Revision>)
    ensures |rs'| == |rs|
  {
    ClearedUpTo(rs, |rs|)
  }

  /** The manuscripts with the targeted ones among the first `k` stripped of their copyright form. */
  function ClearedFormsUpTo(ms: seq<Manuscript>, rs: seq<Revision>, k: nat): (ms': seq<Manuscript>)
    ensures |ms'| == |ms|
  {
    seq(|ms|, m requires 0 <= m < |ms| => if m < k && Targeted(rs, m) then ms[m].(copyrightForm := None) else ms[m])
  }

  /** Every targeted manuscript with its copyright form cleared. */
  function ClearedManuscripts(ms: seq<Manuscript>, rs: seq<Revision>): (ms': seq<Manuscript>)
    ensures |ms'| == |ms|
  {
    ClearedFormsUpTo(ms, rs, |ms|)
  }

  /** Clearing files changes neither status nor update time, so the same manuscripts stay targeted. */
  lemma ClearingKeepsTargets(rs: seq<Revision>, m: nat)
    ensures Targeted(ClearedRevisions(rs), m) <==> Targeted(rs, m)
  {
    var rs' := ClearedRevisions(rs);
    if Targeted(rs, m) {
      var i :| 0 <= i < |rs| && rs[i].manuscriptId == m && Qualifies(rs[i]);
      assert rs'[i].manuscriptId == m && Qualifies(rs'[i]);
    }
    if Targeted(rs', m) {
      var i :| 0 <= i < |rs'| && rs'[i].manuscriptId == m && Qualifies(rs'[i]);
      assert rs[i].manuscriptId == m && Qualifies(rs[i]);
    }
  }

  /** A second run finds nothing more to clear. */
  lemma ClearingIdempotent(rs: seq<Revision>, ms: seq<Manuscript>)
    ensures ClearedRevisions(ClearedRevisions(rs)) == ClearedRevisions(rs)
    ensures ClearedManuscripts(ClearedManuscripts(ms, rs), ClearedRevisions(rs)) == ClearedManuscripts(ms, rs)
  {
    var rs' := ClearedRevisions(rs);
    forall i | 0 <= i < |rs|
      ensures ClearedRevisions(rs')[i] == rs'[i]
    {
      ClearingKeepsTargets(rs, rs[i].manuscriptId);
    }
    var ms' := ClearedManuscripts(ms, rs);
    forall m | 0 <= m < |ms|
      ensures ClearedManuscripts(ms', rs')[m] == ms'[m]
    {
      ClearingKeepsTargets(rs, m);
    }
  }

  /** Only targeted manuscripts lose anything: every revision and manuscript of any other manuscript is kept. */
  lemma ClearingSparesOthers(rs: seq<Revision>, ms: seq<Manuscript>, m: nat)
    requires !Targeted(rs, m)
    ensures forall i :: 0 <= i < |rs| && rs[i].manuscriptId == m ==> ClearedRevisions(rs)[i] == rs[i]
    ensures m < |ms| ==> ClearedManuscripts(ms, rs)[m] == ms[m]
  {
  }

  /** The stored path a column holds, when `if ($path ...)` lets it through. */
  function Present(path: Option<string>): (s: set<string>)
    ensures forall p :: p in s ==> PhpTruthy(p) && path == Some(p)
    ensures path.Some? && PhpTruthy(path.value) ==> s == {path.value}
  {
    if path.Some? && PhpTruthy(path.value) then {path.value} else {}
  }

  /** The paths the first loop deletes from the first `k` revisions. */
  function RevisionPaths(rs: seq<Revision>, k: nat): set<string>
    requires k <= |rs|
  {
    if k == 0 then {}
    else
      var r := rs[k - 1];
      RevisionPaths(rs, k - 1) + (if Targeted(rs, r.manuscriptId) then Present(r.sourceFile) + Present(r.anonymousFile) else {})
  }

  /** The copyright forms the second loop deletes from the first `k` manuscripts. */
  function CopyrightPaths(ms: seq<Manuscript>, rs: seq<Revision>, k: nat): set<string>
    requires k <= |ms|
  {
    if k == 0 then {}
    else CopyrightPaths(ms, rs, k - 1) + (if Targeted(rs, k - 1) then Present(ms[k - 1].copyrightForm) else {})
  }

  /** A path is deleted exactly when a targeted revision or manuscript holds it. */
  lemma {:induction false} RevisionPathsMeaning(rs: seq<Revision>, k: nat, p: string)
    requires k <= |rs|
    ensures p in RevisionPaths(rs, k) <==>
      PhpTruthy(p) && exists i :: 0 <= i < k && Targeted(rs, rs[i].manuscriptId)
                                  && (rs[i].sourceFile == Some(p) || rs[i].anonymousFile == Some(p))
  {
    if k > 0 {
      RevisionPathsMeaning(rs, k - 1, p);
    }
  }

  lemma {:induction false} CopyrightPathsMeaning(ms: seq<Manuscript>, rs: seq<Revision>, k: nat, p: string)
    requires k <= |ms|
    ensures p in CopyrightPaths(ms, rs, k) <==>
      PhpTruthy(p) && exists m :: 0 <= m < k && Targeted(rs, m) && ms[m].copyrightForm == Some(p)
  {
    if k > 0 {
      CopyrightPathsMeaning(ms, rs, k - 1, p);
    }
  }

  /** With no qualifying revision nothing is targeted: the sweep's early return changes nothing. */
  lemma NoTargets(ms: seq<Manuscript>, rs: seq<Revision>)
    requires forall i :: 0 <= i < |rs| ==> !Qualifies(rs[i])
    ensures ClearedRevisions(rs) == rs && ClearedManuscripts(ms, rs) == ms
    ensures RevisionPaths(rs, |rs|) == {} && CopyrightPaths(ms, rs, |ms|) == {}
  {
    forall p | p in RevisionPaths(rs, |rs|)
      ensures false
    {
      RevisionPathsMeaning(rs, |rs|, p);
    }
    forall p | p in CopyrightPaths(ms, rs, |ms|)
      ensures false
    {
      CopyrightPathsMeaning(ms, rs, |ms|, p);
    }
  }
}

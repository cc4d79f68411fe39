/**
 * The editorial database and the request handlers, listener and console jobs that change
 * it in place: status changes and their event log, the acceptance-stage and hand-off
 * handlers, `updateRevise`, adding and removing reviewers, the reviewer invitation
 * actions and their sweeps, the guest-to-author merge, and the retention sweep over the
 * stored files. Every method is specified by the functions of the rule modules.
 */
module Store {
  import opened Wrappers
  import opened Records
  import opened Text
  import StatusEnum
  import EventEnum
  import RL = ReviewerLifecycle
  import SR = SweepRules
  import Pipe = RevisionPipeline
  import V = Versioning
  import P = People
  import RA = ReviewerAssignment
  import H = Housekeeping

  type Status = StatusEnum.Status

  /** The statuses whose change `updateStatus` tells the corresponding author about. */
  predicate NotifiesAuthor(s: Status)
    ensures s.IsRevisionRequired() || s == StatusEnum.Pending || s == StatusEnum.Submitted || s == StatusEnum.Deleted
      ==> !NotifiesAuthor(s)
  {
    s == StatusEnum.Withdrawn || s == StatusEnum.Rejected || s == StatusEnum.ConditionallyAccepted
    || s == StatusEnum.Accepted || s == StatusEnum.Published
  }

  /** The notice `updateStatus` sends for a status, if any. */
  function StatusNotices(s: Status, author: nat, m: nat): (ns: seq<Notification>)
    ensures |ns| <= 1
    ensures |ns| == 1 <==> NotifiesAuthor(s)
    ensures |ns| == 1 ==> ns[0] == Notification(Registered(author), StatusChanged(s), m)
  {
    if NotifiesAuthor(s) then [Notification(Registered(author), StatusChanged(s), m)] else []
  }

  /** Every live reviewer row is in a state reachable by the invitation actions. */
  predicate AnswersConsistent(rows: seq<Option<ReviewerRow>>)
  {
    forall i :: 0 <= i < |rows| && rows[i].Some? ==> RL.NotBothAnswered(rows[i].value)
  }

  /** The person `updateRevise`, a status change or a reminder writes to: the corresponding author. */
  function AuthorOf(ms: seq<Manuscript>, m: nat): Person
    requires m < |ms|
  {
    Registered(ms[m].authorId)
  }

  /** A reviewer row is on revision `rev`. */
  predicate OnRevision(rows: seq<Option<ReviewerRow>>, rev: nat, i: nat)
  {
    i < |rows| && rows[i].Some? && rows[i].value.revisionId == rev
  }

  /**
   * Who answers a review invitation from its link: a registered author that is not
   * deleted, a guest that is still live, or, for a guest already merged away, the first
   * visible author with the guest's e-mail.
   */
  function Responder(authors: seq<AuthorRec>, guests: seq<Option<GuestRec>>, p: Person): (who: Option<Person>)
    ensures who.Some? && who.value.Registered? ==> who.value.id < |authors| && P.Visible(authors[who.value.id])
    ensures p.Registered? ==> who == (if p.id < |authors| && P.Visible(authors[p.id]) then Some(p) else None)
  {
    match p
    case Registered(id) => if id < |authors| && P.Visible(authors[id]) then Some(p) else None
    case Guest(id) =>
      if id >= |guests| || guests[id].None? then None
      else if !guests[id].value.trashed then Some(p)
      else
        var a := P.FirstAuthorWithEmail(authors, guests[id].value.email);
        if a.Some? then Some(Registered(a.value)) else None
  }

  /** The row an invitation answer applies to: on the revision, for the person, invited and not yet answered. */
  predicate Answerable(rows: seq<Option<ReviewerRow>>, rev: nat, p: Person, i: nat)
  {
    OnRevision(rows, rev, i) && rows[i].value.reviewer == p && SR.AwaitingAnswer(rows[i].value)
  }

  /** `firstOrFail()` over the answerable rows from position `from` on. */
  function FirstAnswerable(rows: seq<Option<ReviewerRow>>, rev: nat, p: Person, from: nat): (found: Option<nat>)
    ensures found.Some? ==>
      (from <= found.value && Answerable(rows, rev, p, found.value)
       && forall j :: from <= j < found.value ==> !Answerable(rows, rev, p, j))
    ensures found.None? ==> forall j :: from <= j < |rows| ==> !Answerable(rows, rev, p, j)
    decreases |rows| - from
  {
    if from >= |rows| then None
    else if Answerable(rows, rev, p, from) then Some(from)
    else FirstAnswerable(rows, rev, p, from + 1)
  }

  /** The manual reviewer actions on one row of the current revision. */
  datatype Nudge = InviteNudge | ReinviteNudge | RemindNudge

  /** The revision `updateRevise` creates after `prev`: next index, submitted, the new texts and files, the other columns at their defaults. */
  function NextRevision(prev: Revision, title: string, abstractText: string, keywords: string, novelty: Option<string>,
                        anonymousFile: string, sourceFile: string, now: Time): (next: Revision)
    ensures next.manuscriptId == prev.manuscriptId && next.index == prev.index + 1 && next.status == StatusEnum.Submitted
    ensures next.title == title && next.anonymousFile == Some(anonymousFile) && next.sourceFile == Some(sourceFile)
    ensures next.associateEditorId.None? && next.commentReply.None? && next.commentReplyFile.None?
    ensures next.similarity.None? && next.pages.None? && next.grammarUpdated.None?
  {
    Revision(prev.manuscriptId, prev.index + 1, title, abstractText, keywords, novelty, None, None,
      Some(anonymousFile), Some(sourceFile), None, None, None, None, None,
      StatusEnum.Submitted, None, 8, false, None, false, None, false, None, now)
  }

  /** A stored upload, when there is one. */
  function Stored(path: Option<string>): set<string>
  {
    if path.Some? then {path.value} else {}
  }

  /** The files an acceptance-stage handler stores: the new source file of the pages and grammar steps. */
  function StageUploads(stage: Pipe.Stage): set<string>
  {
    match stage
    case PagesRecorded(_, f) => {f}
    case GrammarRecorded(f) => {f}
    case _ => {}
  }

  /** One more row of the old revision extends the carried-forward copies by at most its own copy. */
  lemma CarriedStep(rows: seq<Option<ReviewerRow>>, reviews: seq<Review>, c: nat, n: nat, user: User, i: nat)
    requires i < |rows|
    ensures RA.CarriedForward(rows[..i + 1], reviews, c, n, user)
         == RA.CarriedForward(rows[..i], reviews, c, n, user)
            + (if RA.Reviewed(rows, reviews, c, i) then [Some(RA.CarriedRow(rows[i].value, n, user))] else [])
  {
    var prefix := rows[..i + 1];
    assert prefix[..i] == rows[..i] && prefix[i] == rows[i];
    assert RA.Reviewed(prefix, reviews, c, i) == RA.Reviewed(rows, reviews, c, i);
  }

  /** Fresh rows never break the one-answer invariant. */
  lemma AppendFreshKeepsConsistent(rows: seq<Option<ReviewerRow>>, added: seq<Option<ReviewerRow>>)
    requires AnswersConsistent(rows)
    requires forall k :: 0 <= k < |added| ==> added[k].Some? && RL.Fresh(added[k].value)
    ensures AnswersConsistent(rows + added)
  {
    var all := rows + added;
    forall i | 0 <= i < |all| && all[i].Some? ensures RL.NotBothAnswered(all[i].value) {
      if i < |rows| {
        assert all[i] == rows[i];
      } else {
        assert all[i] == added[i - |rows|];
      }
    }
  }

  /** Deleting a second batch of paths after a first deletes their union. */
  lemma RemoveMore(base: set<string>, done: set<string>, more: set<string>, failing: set<string>)
    ensures (base - (done - failing)) - (more - failing) == base - ((done + more) - failing)
  {
  }

  class Database {
    var authors: seq<AuthorRec>
    var guests: seq<Option<GuestRec>>
    var manuscripts: seq<Manuscript>
    var revisions: seq<Revision>
    var reviewers: seq<Option<ReviewerRow>>
    var revisionAuthors: seq<AuthorRow>
    var reviews: seq<Review>
    var events: seq<EventRow>
    var notifications: seq<Notification>
    /** The paths present on the local storage disk. */
    var files: set<string>

    /** The tables as one value, for the rule functions. */
    function Snapshot(): Tables
      reads this
    {
      Tables(authors, guests, manuscripts, revisions, reviewers, revisionAuthors, reviews, events, notifications)
    }

    /** Every manuscript points at its latest revision, indices are unique per manuscript, and no reviewer both accepted and denied. */
    predicate Valid()
      reads this
    {
      V.Versioned(manuscripts, revisions) && AnswersConsistent(reviewers)
    }

    /** The position of the current revision of manuscript `m`. */
    function CurrentOf(m: nat): (c: nat)
      reads this
      requires Valid() && m < |manuscripts|
      ensures c < |revisions| && revisions[c].manuscriptId == m
      ensures manuscripts[m].revisionId == Some(c)
      ensures forall i :: 0 <= i < |revisions| && revisions[i].manuscriptId == m ==> revisions[i].index <= revisions[c].index
    {
      assert V.CurrentOk(manuscripts, revisions, m);
      V.Current(manuscripts, revisions, m)
    }

    constructor ()
      ensures Valid()
      ensures authors == [] && guests == [] && manuscripts == [] && revisions == [] && reviewers == []
      ensures revisionAuthors == [] && reviews == [] && events == [] && notifications == [] && files == {}
    {
      authors, guests, manuscripts, revisions, reviewers := [], [], [], [], [];
      revisionAuthors, reviews, events, notifications, files := [], [], [], [], {};
    }

    /** `Revision::createEvent`: one entry appended to the log, stamped with the signed-in user. */
    method CreateEvent(revisionId: nat, event: EventEnum.Event, value: Status, user: User)
      modifies this
      ensures events == old(events) + [EventRow(revisionId, event, value, user.id)]
      ensures Snapshot() == old(Snapshot()).(events := events) && files == old(files)
    {
      events := events + [EventRow(revisionId, event, value, user.id)];
    }

    /** Rewrites the current revision of `m` with `edit` applied, through `save()`. */
    method SaveCurrent(m: nat, edited: Revision, now: Time)
      requires Valid() && m < |manuscripts|
      requires edited.manuscriptId == revisions[CurrentOf(m)].manuscriptId && edited.index == revisions[CurrentOf(m)].index
      modifies this
      ensures Valid()
      ensures revisions == old(revisions[CurrentOf(m) := Pipe.Saved(revisions[CurrentOf(m)], edited, now)])
      ensures Snapshot() == old(Snapshot()).(revisions := revisions) && files == old(files)
    {
      SaveRevision(CurrentOf(m), edited, now);
    }

    /** Saving revision row `p`: the edit takes effect, with a fresh `updated_at` when anything changed. */
    method SaveRevision(p: nat, edited: Revision, now: Time)
      requires Valid() && p < |revisions|
      requires edited.manuscriptId == revisions[p].manuscriptId && edited.index == revisions[p].index
      modifies this
      ensures Valid()
      ensures revisions == old(revisions[p := Pipe.Saved(revisions[p], edited, now)])
      ensures Snapshot() == old(Snapshot()).(revisions := revisions) && files == old(files)
    {
      var saved := Pipe.Saved(revisions[p], edited, now);
      V.EditKeepsVersioned(manuscripts, revisions, p, saved);
      revisions := revisions[p := saved];
    }

    /**
     * `updateStatus`: the current revision takes the status, one status event is logged
     * on it, and the corresponding author hears of a withdrawal, rejection, (conditional)
     * acceptance or publication.
     */
    method UpdateStatus(m: nat, status: Status, user: User, now: Time)
      requires Valid() && m < |manuscripts|
      modifies this
      ensures Valid()
      ensures revisions == old(revisions[CurrentOf(m) := Pipe.Saved(revisions[CurrentOf(m)], Pipe.SetStatus(revisions[CurrentOf(m)], status), now)])
      ensures revisions[old(CurrentOf(m))].status == status
      ensures events == old(events) + [EventRow(old(CurrentOf(m)), EventEnum.StatusUpdated, status, user.id)]
      ensures notifications == old(notifications) + StatusNotices(status, old(manuscripts[m].authorId), m)
      ensures Snapshot() == old(Snapshot()).(revisions := revisions, events := events, notifications := notifications)
      ensures files == old(files)
    {
      var c := CurrentOf(m);
      SaveCurrent(m, Pipe.SetStatus(revisions[c], status), now);
      CreateEvent(c, EventEnum.StatusUpdated, status, user);
      notifications := notifications + StatusNotices(status, manuscripts[m].authorId, m);
    }

    /** `revisionRequired`: the status changes and the author is told, but nothing is logged. */
    method RevisionRequired(m: nat, status: Status, now: Time)
      requires Valid() && m < |manuscripts|
      requires status == StatusEnum.MinorRevision || status == StatusEnum.MajorRevision
      modifies this
      ensures Valid()
      ensures revisions == old(revisions[CurrentOf(m) := Pipe.Saved(revisions[CurrentOf(m)], Pipe.SetStatus(revisions[CurrentOf(m)], status), now)])
      ensures notifications == old(notifications) + [Notification(AuthorOf(old(manuscripts), m), RevisionRequested, m)]
      ensures events == old(events)
      ensures Snapshot() == old(Snapshot()).(revisions := revisions, notifications := notifications)
      ensures files == old(files)
    {
      var c := CurrentOf(m);
      SaveCurrent(m, Pipe.SetStatus(revisions[c], status), now);
      notifications := notifications + [Notification(AuthorOf(manuscripts, m), RevisionRequested, m)];
    }

    /** `submit`: the current revision becomes submitted, the change is logged and the author is told. */
    method Submit(m: nat, user: User, now: Time)
      requires Valid() && m < |manuscripts|
      modifies this
      ensures Valid()
      ensures revisions == old(revisions[CurrentOf(m) := Pipe.Saved(revisions[CurrentOf(m)], Pipe.SetStatus(revisions[CurrentOf(m)], StatusEnum.Submitted), now)])
      ensures events == old(events) + [EventRow(old(CurrentOf(m)), EventEnum.StatusUpdated, StatusEnum.Submitted, user.id)]
      ensures notifications == old(notifications) + [Notification(AuthorOf(old(manuscripts), m), Submitted, m)]
      ensures Snapshot() == old(Snapshot()).(revisions := revisions, events := events, notifications := notifications)
      ensures files == old(files)
    {
      var c := CurrentOf(m);
      SaveCurrent(m, Pipe.SetStatus(revisions[c], StatusEnum.Submitted), now);
      CreateEvent(c, EventEnum.StatusUpdated, StatusEnum.Submitted, user);
      notifications := notifications + [Notification(AuthorOf(manuscripts, m), Submitted, m)];
    }

    /** The acceptance-stage handlers: the stage's flags and results change, the status does not, and nothing is logged. */
    method UpdateStage(m: nat, stage: Pipe.Stage, now: Time)
      requires Valid() && m < |manuscripts|
      modifies this
      ensures Valid()
      ensures revisions == old(revisions[CurrentOf(m) := Pipe.Saved(revisions[CurrentOf(m)], Pipe.ApplyStage(revisions[CurrentOf(m)], stage), now)])
      ensures revisions[old(CurrentOf(m))].status == old(revisions[CurrentOf(m)].status)
      ensures files == old(files) + StageUploads(stage)
      ensures Snapshot() == old(Snapshot()).(revisions := revisions)
    {
      var c := CurrentOf(m);
      Pipe.StagesKeepStatus(revisions[c], stage);
      SaveCurrent(m, Pipe.ApplyStage(revisions[c], stage), now);
      files := files + StageUploads(stage);
    }

    /** `assignAssociateEditor`: the editor is set on the current revision and told. */
    method AssignAssociateEditor(m: nat, editorId: nat, now: Time)
      requires Valid() && m < |manuscripts|
      modifies this
      ensures Valid()
      ensures revisions == old(revisions[CurrentOf(m) := Pipe.Saved(revisions[CurrentOf(m)], Pipe.AssignAssociateEditor(revisions[CurrentOf(m)], editorId), now)])
      ensures notifications == old(notifications) + [Notification(Registered(editorId), AssociateEditorAssigned, m)]
      ensures Snapshot() == old(Snapshot()).(revisions := revisions, notifications := notifications) && files == old(files)
    {
      var c := CurrentOf(m);
      SaveCurrent(m, Pipe.AssignAssociateEditor(revisions[c], editorId), now);
      notifications := notifications + [Notification(Registered(editorId), AssociateEditorAssigned, m)];
    }

    /** `updateInvite`: the number of reviews the current revision needs. */
    method UpdateInvite(m: nat, minimum: nat, now: Time)
      requires Valid() && m < |manuscripts|
      modifies this
      ensures Valid()
      ensures revisions == old(revisions[CurrentOf(m) := Pipe.Saved(revisions[CurrentOf(m)], Pipe.SetMinimumReviews(revisions[CurrentOf(m)], minimum), now)])
      ensures Snapshot() == old(Snapshot()).(revisions := revisions) && files == old(files)
    {
      SaveCurrent(m, Pipe.SetMinimumReviews(revisions[CurrentOf(m)], minimum), now);
    }

    /** `sendToEIC`: the associate editor's comments to the editor in chief are stored on the current revision. */
    method SendToEic(m: nat, comments: string, now: Time)
      requires Valid() && m < |manuscripts|
      modifies this
      ensures Valid()
      ensures revisions == old(revisions[CurrentOf(m) := Pipe.Saved(revisions[CurrentOf(m)], Pipe.SendToEditorInChief(revisions[CurrentOf(m)], comments), now)])
      ensures Snapshot() == old(Snapshot()).(revisions := revisions) && files == old(files)
    {
      SaveCurrent(m, Pipe.SendToEditorInChief(revisions[CurrentOf(m)], comments), now);
    }

    /** `remindAuthor`: only a reminder to the corresponding author. */
    method RemindAuthor(m: nat)
      requires m < |manuscripts|
      modifies this
      ensures notifications == old(notifications) + [Notification(AuthorOf(old(manuscripts), m), RevisionReminder, m)]
      ensures Snapshot() == old(Snapshot()).(notifications := notifications) && files == old(files)
    {
      notifications := notifications + [Notification(AuthorOf(manuscripts, m), RevisionReminder, m)];
    }

    /**
     * `updateFormatter` / `updateProofreader`: the current revision moves to the stage and
     * is saved first; the person with the e-mail is then linked as a revision author. When
     * nobody has that e-mail the link fails but the status change stays.
     */
    method HandOff(m: nat, stage: Status, email: string, user: User, now: Time) returns (r: Result<AuthorRow, RA.AddError>)
      requires Valid() && m < |manuscripts|
      requires stage == StatusEnum.Formatter || stage == StatusEnum.Proofreader
      modifies this
      ensures Valid()
      ensures revisions == old(revisions[CurrentOf(m) := Pipe.Saved(revisions[CurrentOf(m)], Pipe.HandOff(revisions[CurrentOf(m)], stage), now)])
      ensures revisions[old(CurrentOf(m))].status == stage
      ensures r == RA.LinkAuthor(old(Snapshot()), m, email, user)
      ensures revisionAuthors == old(revisionAuthors) + (if r.Success? then [r.value] else [])
      ensures Snapshot() == old(Snapshot()).(revisions := revisions, revisionAuthors := revisionAuthors) && files == old(files)
    {
      var c := CurrentOf(m);
      r := RA.LinkAuthor(Snapshot(), m, email, user);
      SaveCurrent(m, Pipe.HandOff(revisions[c], stage), now);
      if r.Success? {
        revisionAuthors := revisionAuthors + [r.value];
      }
    }

    /** `FormatterController::formatPaper`: both papers stored, the other file only when given, status proofreader, nothing logged. */
    method FormatPaper(m: nat, formatted: string, correction: string, other: Option<string>, now: Time)
      requires Valid() && m < |manuscripts|
      modifies this
      ensures Valid()
      ensures revisions == old(revisions[CurrentOf(m) := Pipe.Saved(revisions[CurrentOf(m)], Pipe.FormatPaper(revisions[CurrentOf(m)], formatted, correction, other), now)])
      ensures revisions[old(CurrentOf(m))].status == StatusEnum.Proofreader
      ensures events == old(events)
      ensures files == old(files) + {formatted, correction} + Stored(other)
      ensures Snapshot() == old(Snapshot()).(revisions := revisions)
    {
      SaveCurrent(m, Pipe.FormatPaper(revisions[CurrentOf(m)], formatted, correction, other), now);
      files := files + {formatted, correction} + Stored(other);
    }

    /** `ProofreaderController::proofreaderPaper`: the paper stored, status ready-article, nothing logged. */
    method ProofreadPaper(m: nat, paper: string, now: Time)
      requires Valid() && m < |manuscripts|
      modifies this
      ensures Valid()
      ensures revisions == old(revisions[CurrentOf(m) := Pipe.Saved(revisions[CurrentOf(m)], Pipe.ProofreadPaper(revisions[CurrentOf(m)], paper), now)])
      ensures revisions[old(CurrentOf(m))].status == StatusEnum.ReadyArticle
      ensures events == old(events)
      ensures files == old(files) + {paper}
      ensures Snapshot() == old(Snapshot()).(revisions := revisions)
    {
      SaveCurrent(m, Pipe.ProofreadPaper(revisions[CurrentOf(m)], paper), now);
      files := files + {paper};
    }

    /**
     * `updateCommentReply`: the reply goes to the revision one index below the current
     * one; there is none (a not-found failure, nothing changed) when the current revision
     * is the first.
     */
    method UpdateCommentReply(m: nat, reply: string, file: Option<string>, now: Time) returns (ok: bool)
      requires Valid() && m < |manuscripts|
      modifies this
      ensures Valid()
      ensures ok <==> old(revisions[CurrentOf(m)].index) > 0
      ensures !ok ==> Snapshot() == old(Snapshot()) && files == old(files)
      ensures ok ==> var p := V.FindIndex(old(revisions), m, old(revisions[CurrentOf(m)].index) - 1).value;
        revisions == old(revisions[p := Pipe.Saved(revisions[p], Pipe.RecordCommentReply(revisions[p], reply, file), now)])
        && files == old(files) + Stored(file)
      ensures Snapshot() == old(Snapshot()).(revisions := revisions)
    {
      var c := CurrentOf(m);
      if revisions[c].index == 0 {
        return false;
      }
      V.PreviousRevisionExists(manuscripts, revisions, m);
      var p := V.FindIndex(revisions, m, revisions[c].index - 1).value;
      SaveRevision(p, Pipe.RecordCommentReply(revisions[p], reply, file), now);
      files := files + Stored(file);
      ok := true;
    }

    /** `RevisionReviewer::invite` on row `i`, saved in place. */
    method InviteRow(i: nat, signedIn: Option<Stamp>)
      requires Valid() && i < |reviewers| && reviewers[i].Some?
      modifies this
      ensures Valid()
      ensures reviewers == old(reviewers[i := Some(RL.Invite(reviewers[i].value, signedIn))])
      ensures Snapshot() == old(Snapshot()).(reviewers := reviewers) && files == old(files)
    {
      RL.StepKeepsOneAnswer(reviewers[i].value, RL.InviteOp(signedIn));
      reviewers := reviewers[i := Some(RL.Invite(reviewers[i].value, signedIn))];
    }

    /** `RevisionReviewer::remind` on row `i`. */
    method RemindRow(i: nat)
      requires Valid() && i < |reviewers| && reviewers[i].Some?
      modifies this
      ensures Valid()
      ensures reviewers == old(reviewers[i := Some(RL.Remind(reviewers[i].value))])
      ensures Snapshot() == old(Snapshot()).(reviewers := reviewers) && files == old(files)
    {
      RL.StepKeepsOneAnswer(reviewers[i].value, RL.RemindOp);
      reviewers := reviewers[i := Some(RL.Remind(reviewers[i].value))];
    }

    /** `RevisionReviewer::accept` on row `i`: stamped only when the row was not denied. */
    method AcceptRow(i: nat, now: Time)
      requires Valid() && i < |reviewers| && reviewers[i].Some?
      modifies this
      ensures Valid()
      ensures reviewers == old(reviewers[i := Some(RL.Accept(reviewers[i].value, now))])
      ensures Snapshot() == old(Snapshot()).(reviewers := reviewers) && files == old(files)
    {
      RL.StepKeepsOneAnswer(reviewers[i].value, RL.AcceptOp(now));
      reviewers := reviewers[i := Some(RL.Accept(reviewers[i].value, now))];
    }

    /** `RevisionReviewer::deny` on row `i`: stamped only when the row was not accepted. */
    method DenyRow(i: nat, now: Time)
      requires Valid() && i < |reviewers| && reviewers[i].Some?
      modifies this
      ensures Valid()
      ensures reviewers == old(reviewers[i := Some(RL.Deny(reviewers[i].value, now))])
      ensures Snapshot() == old(Snapshot()).(reviewers := reviewers) && files == old(files)
    {
      RL.StepKeepsOneAnswer(reviewers[i].value, RL.DenyOp(now));
      reviewers := reviewers[i := Some(RL.Deny(reviewers[i].value, now))];
    }

    /**
     * `inviteRevisionReviewer`, `reInviteRevisionReviewer` and `remindRevisionReviewer`:
     * the row must be a reviewer row of the current revision (otherwise the request fails
     * and nothing changes); an invitation by a signed-in user stamps who and when, a
     * reminder only counts; the reviewer gets the matching message.
     */
    method NudgeReviewer(m: nat, rowId: nat, nudge: Nudge, user: User, now: Time) returns (found: bool)
      requires Valid() && m < |manuscripts|
      modifies this
      ensures Valid()
      ensures found <==> OnRevision(old(reviewers), old(CurrentOf(m)), rowId)
      ensures !found ==> Snapshot() == old(Snapshot())
      ensures found ==> var r := old(reviewers[rowId].value);
        reviewers == old(reviewers)[rowId := Some(if nudge == RemindNudge then RL.Remind(r) else RL.Invite(r, Some(Stamp(user.id, now))))]
        && notifications == old(notifications) + [Notification(r.reviewer,
             match nudge case InviteNudge => ReviewerInvited case ReinviteNudge => ReviewerReinvitedMail case RemindNudge => ReviewReminder, m)]
      ensures Snapshot() == old(Snapshot()).(reviewers := reviewers, notifications := notifications) && files == old(files)
    {
      if !OnRevision(reviewers, CurrentOf(m), rowId) {
        return false;
      }
      var r := reviewers[rowId].value;
      found := true;
      match nudge
      case InviteNudge =>
        InviteRow(rowId, Some(Stamp(user.id, now)));
        notifications := notifications + [Notification(r.reviewer, ReviewerInvited, m)];
      case ReinviteNudge =>
        InviteRow(rowId, Some(Stamp(user.id, now)));
        notifications := notifications + [Notification(r.reviewer, ReviewerReinvitedMail, m)];
      case RemindNudge =>
        RemindRow(rowId);
        notifications := notifications + [Notification(r.reviewer, ReviewReminder, m)];
    }

    /**
     * `respondReviewInvite`: the answer applies to the first row of the current revision
     * for the responder that is invited and not yet answered, and fails as not found when
     * there is none; a denial notifies the reviewer before the row is denied. The chosen
     * row ends accepted or denied at `now`.
     */
    method RespondReviewInvite(m: nat, person: Person, accept: bool, now: Time) returns (found: bool)
      requires Valid() && m < |manuscripts|
      modifies this
      ensures Valid()
      ensures var who := Responder(old(authors), old(guests), person);
        found <==> who.Some? && FirstAnswerable(old(reviewers), old(CurrentOf(m)), who.value, 0).Some?
      ensures !found ==> Snapshot() == old(Snapshot())
      ensures found ==>
        var who := Responder(old(authors), old(guests), person).value;
        var i := FirstAnswerable(old(reviewers), old(CurrentOf(m)), who, 0).value;
        var r := old(reviewers[i].value);
        reviewers == old(reviewers)[i := Some(if accept then RL.Accept(r, now) else RL.Deny(r, now))]
        && (if accept then reviewers[i].value.acceptedAt == Some(now) && reviewers[i].value.deniedAt.None?
            else reviewers[i].value.deniedAt == Some(now) && reviewers[i].value.acceptedAt.None?)
        && notifications == old(notifications) + (if accept then [] else [Notification(who, ReviewInviteDenied, m)])
      ensures Snapshot() == old(Snapshot()).(reviewers := reviewers, notifications := notifications) && files == old(files)
    {
      var who := Responder(authors, guests, person);
      if who.None? {
        return false;
      }
      var idx := FirstAnswerable(reviewers, CurrentOf(m), who.value, 0);
      if idx.None? {
        return false;
      }
      var i := idx.value;
      if accept {
        AcceptRow(i, now);
      } else {
        notifications := notifications + [Notification(who.value, ReviewInviteDenied, m)];
        DenyRow(i, now);
      }
      found := true;
    }

    /**
     * `addRevisionReviewer`: the e-mail is checked in the source's order; a rejection
     * changes nothing, an acceptance appends exactly one fresh row on the current
     * revision and answers with its id.
     */
    method AddRevisionReviewer(m: nat, email: string, user: User) returns (r: Result<nat, RA.AddError>)
      requires Valid() && m < |manuscripts|
      modifies this
      ensures Valid()
      ensures old(RA.HasCurrent(Snapshot(), m))
      ensures var check := old(RA.CheckReviewer(Snapshot(), m, reviewers, email));
        (r.Failure? <==> check.Failure?)
        && (r.Failure? ==> r.error == check.error && Snapshot() == old(Snapshot()))
        && (r.Success? ==>
              (r.value == old(|reviewers|)
               && reviewers == old(reviewers) + [Some(old(RA.AddedRow(Snapshot(), m, check.value, user)))]))
      ensures Snapshot() == old(Snapshot()).(reviewers := reviewers) && files == old(files)
    {
      var c := CurrentOf(m);
      var t := Snapshot();
      var check := RA.CheckReviewer(t, m, reviewers, email);
      if check.Failure? {
        return Failure(check.error);
      }
      var row := RA.AddedRow(t, m, check.value, user);
      reviewers := reviewers + [Some(row)];
      r := Success(|reviewers| - 1);
    }

    /**
     * `addRevisionReviewers` as written: every entry is checked against the reviewer rows
     * as they were loaded before the loop, so an e-mail given twice is attached twice (see
     * `ReviewerAssignment.DuplicateBatchAsWritten`); the rows and the error are those of
     * `BatchAsWritten`, and entries accepted before a rejection stay.
     */
    method AddRevisionReviewers(m: nat, emails: seq<string>, user: User) returns (error: Option<RA.AddError>)
      requires Valid() && m < |manuscripts|
      modifies this
      ensures Valid()
      ensures old(RA.HasCurrent(Snapshot(), m))
      ensures RA.BatchOutcome(reviewers, error) == RA.BatchAsWritten(old(Snapshot()), m, old(reviewers), emails, user)
      ensures Snapshot() == old(Snapshot()).(reviewers := reviewers) && files == old(files)
    {
      var c := CurrentOf(m);
      var t := Snapshot();
      var i := 0;
      while i < |emails|
        invariant 0 <= i <= |emails|
        invariant Valid()
        invariant Snapshot() == t.(reviewers := reviewers) && files == old(files)
        invariant RA.BatchAsWritten(t, m, t.reviewers, emails, user) == RA.BatchAsWritten(t, m, reviewers, emails[i..], user)
      {
        assert emails[i..][0] == emails[i] && emails[i..][1..] == emails[i + 1..];
        var check := RA.CheckReviewer(t, m, t.reviewers, emails[i]);
        if check.Failure? {
          return Some(check.error);
        }
        var row := RA.AddedRow(t, m, check.value, user);
        reviewers := reviewers + [Some(row)];
        i := i + 1;
      }
      error := None;
    }

    /**
     * `removeRevisionReviewer`: the row, which must belong to the current revision, is
     * deleted for good; its reviewer goes too when it is a live guest the user created
     * that nothing refers to any more.
     */
    method RemoveRevisionReviewer(m: nat, rowId: nat, user: User) returns (found: bool)
      requires Valid() && m < |manuscripts|
      modifies this
      ensures Valid()
      ensures found <==> OnRevision(old(reviewers), old(CurrentOf(m)), rowId)
      ensures !found ==> Snapshot() == old(Snapshot())
      ensures found ==> var p := old(reviewers[rowId].value.reviewer);
        reviewers == old(reviewers)[rowId := None]
        && guests == (if RA.PurgesGuest(old(guests), reviewers, old(revisionAuthors), p, user) then old(guests)[p.id := None] else old(guests))
      ensures Snapshot() == old(Snapshot()).(reviewers := reviewers, guests := guests) && files == old(files)
    {
      if !OnRevision(reviewers, CurrentOf(m), rowId) {
        return false;
      }
      var p := reviewers[rowId].value.reviewer;
      reviewers := reviewers[rowId := None];
      if RA.PurgesGuest(guests, reviewers, revisionAuthors, p, user) {
        guests := guests[p.id := None];
      }
      found := true;
    }

    /**
     * The copy loop of `updateRevise`: each reviewer row of revision `c` whose reviewer id
     * has a review there gets a fresh copy on revision `n`, appended in row order.
     */
    method CarryForward(c: nat, n: nat, user: User)
      requires AnswersConsistent(reviewers)
      modifies this
      ensures AnswersConsistent(reviewers)
      ensures reviewers == old(reviewers) + RA.CarriedForward(old(reviewers), reviews, c, n, user)
      ensures Snapshot() == old(Snapshot()).(reviewers := reviewers) && files == old(files)
    {
      var rows := reviewers;
      var copies: seq<Option<ReviewerRow>> := [];
      var i := 0;
      while i < |rows|
        invariant 0 <= i <= |rows|
        invariant copies == RA.CarriedForward(rows[..i], reviews, c, n, user)
        modifies {}
      {
        CarriedStep(rows, reviews, c, n, user, i);
        if RA.Reviewed(rows, reviews, c, i) {
          copies := copies + [Some(RA.CarriedRow(rows[i].value, n, user))];
        }
        i := i + 1;
      }
      assert rows[..|rows|] == rows;
      AppendFreshKeepsConsistent(rows, copies);
      reviewers := rows + copies;
    }

    /** Appends `next` as the newest revision of `m` and makes it current. */
    method OpenRevision(m: nat, next: Revision) returns (n: nat)
      requires Valid() && m < |manuscripts|
      requires next.manuscriptId == m && next.index == revisions[CurrentOf(m)].index + 1
      modifies this
      ensures Valid()
      ensures n == old(|revisions|) && revisions == old(revisions) + [next]
      ensures manuscripts == old(manuscripts[m := manuscripts[m].(revisionId := Some(n))])
      ensures Snapshot() == old(Snapshot()).(manuscripts := manuscripts, revisions := revisions) && files == old(files)
    {
      n := |revisions|;
      V.ReviseKeepsVersioned(manuscripts, revisions, m, next);
      revisions := revisions + [next];
      manuscripts := manuscripts[m := manuscripts[m].(revisionId := Some(n))];
    }

    /** The revision half of `updateRevise`: the reply is saved on the current revision and the next revision opened after it. */
    method Resubmit(m: nat, reply: string, replyFile: string, title: string, abstractText: string, keywords: string,
                    novelty: Option<string>, anonymousFile: string, sourceFile: string, now: Time) returns (n: nat)
      requires Valid() && m < |manuscripts|
      modifies this
      ensures Valid()
      ensures manuscripts == old(manuscripts[m := manuscripts[m].(revisionId := Some(|revisions|))])
      ensures n == old(|revisions|) && CurrentOf(m) == n
      ensures var c := old(CurrentOf(m));
        revisions == old(revisions[c := Pipe.Saved(revisions[c], Pipe.RecordCommentReply(revisions[c], reply, Some(replyFile)), now)])
          + [NextRevision(old(revisions[c]), title, abstractText, keywords, novelty, anonymousFile, sourceFile, now)]
      ensures files == old(files) + {replyFile, anonymousFile, sourceFile}
      ensures Snapshot() == old(Snapshot()).(manuscripts := manuscripts, revisions := revisions)
    {
      var c := CurrentOf(m);
      SaveCurrent(m, Pipe.RecordCommentReply(revisions[c], reply, Some(replyFile)), now);
      var next := NextRevision(revisions[c], title, abstractText, keywords, novelty, anonymousFile, sourceFile, now);
      n := OpenRevision(m, next);
      files := files + {replyFile, anonymousFile, sourceFile};
    }

    /**
     * `updateRevise`: the reply (and its file) is saved on the current revision; a new
     * revision with the next index, submitted, carrying the new texts and files is
     * created; the reviewers who reviewed the old revision are copied onto it in row
     * order; the manuscript moves to it; one status event is logged on it and the author
     * is told. The manuscripts and revisions keep their shape.
     */
    method UpdateRevise(m: nat, reply: string, replyFile: string, title: string, abstractText: string, keywords: string,
                        novelty: Option<string>, anonymousFile: string, sourceFile: string, user: User, now: Time) returns (n: nat)
      requires Valid() && m < |manuscripts|
      modifies this
      ensures Valid()
      ensures manuscripts == old(manuscripts[m := manuscripts[m].(revisionId := Some(|revisions|))])
      ensures n == old(|revisions|) && CurrentOf(m) == n
      ensures var c := old(CurrentOf(m));
        revisions == old(revisions[c := Pipe.Saved(revisions[c], Pipe.RecordCommentReply(revisions[c], reply, Some(replyFile)), now)])
          + [NextRevision(old(revisions[c]), title, abstractText, keywords, novelty, anonymousFile, sourceFile, now)]
      ensures revisions[n].index == old(revisions[CurrentOf(m)].index) + 1 && revisions[n].status == StatusEnum.Submitted
      ensures reviewers == old(reviewers) + RA.CarriedForward(old(reviewers), old(reviews), old(CurrentOf(m)), n, user)
      ensures events == old(events) + [EventRow(n, EventEnum.StatusUpdated, StatusEnum.Submitted, user.id)]
      ensures notifications == old(notifications) + [Notification(AuthorOf(old(manuscripts), m), Revised, m)]
      ensures files == old(files) + {replyFile, anonymousFile, sourceFile}
      ensures Snapshot() == old(Snapshot()).(manuscripts := manuscripts, revisions := revisions, reviewers := reviewers,
                                             events := events, notifications := notifications)
    {
      var c := CurrentOf(m);
      n := Resubmit(m, reply, replyFile, title, abstractText, keywords, novelty, anonymousFile, sourceFile, now);
      CarryForward(c, n, user);
      CreateEvent(n, EventEnum.StatusUpdated, StatusEnum.Submitted, user);
      notifications := notifications + [Notification(AuthorOf(manuscripts, m), Revised, m)];
    }

    /**
     * A reviewer sweep, the `handle()` of the re-invitation and reminder commands: the
     * query picks its rows from the tables as they stand, then each picked row is
     * re-invited or reminded and its reviewer mailed, in row order.
     */
    method RunSweep(job: H.Sweep, today: Time)
      requires Valid()
      modifies this
      ensures Valid()
      ensures |reviewers| == old(|reviewers|)
      ensures forall i :: 0 <= i < |reviewers| ==> reviewers[i] == H.SweptRow(old(Snapshot()), job, today, i)
      ensures notifications == old(notifications) + H.SweepNotices(old(Snapshot()), job, today, old(|reviewers|))
      ensures Snapshot() == old(Snapshot()).(reviewers := reviewers, notifications := notifications) && files == old(files)
    {
      var t := Snapshot();
      var i := 0;
      while i < |t.reviewers|
        invariant 0 <= i <= |t.reviewers| == |reviewers|
        invariant forall j :: 0 <= j < i ==> reviewers[j] == H.SweptRow(t, job, today, j)
        invariant forall j :: i <= j < |reviewers| ==> reviewers[j] == t.reviewers[j]
        invariant notifications == t.notifications + H.SweepNotices(t, job, today, i)
        invariant Valid()
        invariant Snapshot() == t.(reviewers := reviewers, notifications := notifications) && files == old(files)
      {
        SweepRow(t, job, today, i);
        i := i + 1;
      }
    }

    /** One row of a sweep: re-invited or reminded, and its reviewer mailed, when the query picked it. */
    method SweepRow(t: Tables, job: H.Sweep, today: Time, i: nat)
      requires Valid() && i < |t.reviewers| == |reviewers| && reviewers[i] == t.reviewers[i]
      modifies this
      ensures Valid()
      ensures reviewers == old(reviewers)[i := H.SweptRow(t, job, today, i)]
      ensures notifications == old(notifications) + if H.Due(t, job, today, i) then [H.SweepNotice(t, job, today, i)] else []
      ensures Snapshot() == old(Snapshot()).(reviewers := reviewers, notifications := notifications) && files == old(files)
    {
      if H.Due(t, job, today, i) {
        match job {
          case Reinvite(_) => InviteRow(i, None);
          case Remind(_) => RemindRow(i);
        }
        notifications := notifications + [H.SweepNotice(t, job, today, i)];
      }
    }

    /**
     * The e-mail verification listener: the first live guest with the verified author's
     * e-mail has its reviewer and author rows pointed at the author and is then trashed;
     * with no author or no such guest nothing changes.
     */
    method MergeGuest(user: Option<nat>) returns (merged: Option<nat>)
      requires Valid()
      requires user.Some? ==> user.value < |authors|
      modifies this
      ensures Valid()
      ensures merged == if user.Some? then P.FirstGuestWithEmail(old(guests), old(authors[user.value].email)) else None
      ensures merged.None? ==> Snapshot() == old(Snapshot())
      ensures merged.Some? ==> (
        var from, to := Guest(merged.value), Registered(user.value);
        reviewers == H.RepointReviewers(old(reviewers), from, to)
        && revisionAuthors == H.RepointAuthors(old(revisionAuthors), from, to)
        && guests == old(guests[merged.value := Some(guests[merged.value].value.(trashed := true))])
        && RA.Unreferenced(reviewers, revisionAuthors, from))
      ensures Snapshot() == old(Snapshot()).(reviewers := reviewers, revisionAuthors := revisionAuthors, guests := guests)
      ensures files == old(files)
    {
      if user.None? {
        return None;
      }
      merged := P.FirstGuestWithEmail(guests, authors[user.value].email);
      if merged.None? {
        return;
      }
      var g := merged.value;
      var from, to := Guest(g), Registered(user.value);
      var rows := H.RepointReviewers(reviewers, from, to);
      forall i | 0 <= i < |rows| && rows[i].Some?
        ensures RL.NotBothAnswered(rows[i].value)
      {
        H.RepointKeepsAnswers(reviewers, from, to, i);
      }
      H.RepointMeaning(reviewers, revisionAuthors, from, to);
      reviewers := rows;
      revisionAuthors := H.RepointAuthors(revisionAuthors, from, to);
      guests := guests[g := Some(guests[g].value.(trashed := true))];
    }

    /** Deletes a stored path as the retention sweep does: a truthy path only, and a delete that throws is logged and skipped. */
    method DeleteIfPresent(path: Option<string>, failing: set<string>)
      modifies this
      ensures files == old(files) - (H.Present(path) - failing)
      ensures Snapshot() == old(Snapshot())
    {
      if path.Some? && PhpTruthy(path.value) && path.value in files && path.value !in failing {
        files := files - {path.value};
      }
    }

    /**
     * The retention sweep: every manuscript with a rejected, withdrawn or deleted
     * revision last updated in 2024 loses the source and anonymous files of all its
     * revisions and its copyright form, on disk and in the tables. A dry run only reports
     * what it would do, so it changes nothing; a file whose delete fails stays on disk
     * while its column is cleared.
     */
    method RetentionSweep(dryRun: bool, failing: set<string>)
      requires Valid()
      modifies this
      ensures Valid()
      ensures revisions == if dryRun then old(revisions) else H.ClearedRevisions(old(revisions))
      ensures manuscripts == if dryRun then old(manuscripts) else H.ClearedManuscripts(old(manuscripts), old(revisions))
      ensures files == if dryRun then old(files)
        else old(files) - ((H.RevisionPaths(old(revisions), old(|revisions|))
                            + H.CopyrightPaths(old(manuscripts), old(revisions), old(|manuscripts|))) - failing)
      ensures Snapshot() == old(Snapshot()).(manuscripts := manuscripts, revisions := revisions)
    {
      var t := Snapshot();
      if !exists i | 0 <= i < |revisions| :: H.Qualifies(revisions[i]) {
        H.NoTargets(t.manuscripts, t.revisions);
        return;
      }
      if dryRun {
        return;
      }
      ClearRevisionFiles(failing);
      ClearCopyrightForms(t.revisions, failing);
    }

    /** The first loop of the retention sweep, over the revisions of the targeted manuscripts. */
    method ClearRevisionFiles(failing: set<string>)
      requires Valid()
      modifies this
      ensures Valid()
      ensures revisions == H.ClearedRevisions(old(revisions))
      ensures files == old(files) - (H.RevisionPaths(old(revisions), old(|revisions|)) - failing)
      ensures Snapshot() == old(Snapshot()).(revisions := revisions)
    {
      var t := Snapshot();
      ghost var before := files;
      var i := 0;
      while i < |t.revisions|
        invariant 0 <= i <= |t.revisions|
        invariant revisions == H.ClearedUpTo(t.revisions, i)
        invariant files == before - (H.RevisionPaths(t.revisions, i) - failing)
        invariant Valid()
        invariant Snapshot() == t.(revisions := revisions)
      {
        ClearRevision(t.revisions, i, failing, before);
        i := i + 1;
      }
    }

    /**
     * One revision of the first loop: its files deleted and its columns cleared when its
     * manuscript is targeted in `rs`; afterwards the first `i + 1` revisions are done
     * where the first `i` were.
     */
    method ClearRevision(rs: seq<Revision>, i: nat, failing: set<string>, ghost before: set<string>)
      requires Valid() && i < |rs| && revisions == H.ClearedUpTo(rs, i)
      requires files == before - (H.RevisionPaths(rs, i) - failing)
      modifies this
      ensures Valid()
      ensures revisions == H.ClearedUpTo(rs, i + 1)
      ensures files == before - (H.RevisionPaths(rs, i + 1) - failing)
      ensures Snapshot() == old(Snapshot()).(revisions := revisions)
    {
      var r := revisions[i];
      if H.Targeted(rs, r.manuscriptId) {
        DeleteIfPresent(r.sourceFile, failing);
        DeleteIfPresent(r.anonymousFile, failing);
        RemoveMore(before, H.RevisionPaths(rs, i), H.Present(r.sourceFile) + H.Present(r.anonymousFile), failing);
        V.EditKeepsVersioned(manuscripts, revisions, i, H.Cleared(r));
        revisions := revisions[i := H.Cleared(r)];
      }
    }

    /** The second loop of the retention sweep, over the manuscripts targeted by the revisions `rs` as first read. */
    method ClearCopyrightForms(rs: seq<Revision>, failing: set<string>)
      requires Valid()
      modifies this
      ensures Valid()
      ensures manuscripts == H.ClearedManuscripts(old(manuscripts), rs)
      ensures files == old(files) - (H.CopyrightPaths(old(manuscripts), rs, old(|manuscripts|)) - failing)
      ensures Snapshot() == old(Snapshot()).(manuscripts := manuscripts)
    {
      var t := Snapshot();
      ghost var before := files;
      var m := 0;
      while m < |t.manuscripts|
        invariant 0 <= m <= |t.manuscripts|
        invariant manuscripts == H.ClearedFormsUpTo(t.manuscripts, rs, m)
        invariant files == before - (H.CopyrightPaths(t.manuscripts, rs, m) - failing)
        invariant Valid()
        invariant Snapshot() == t.(manuscripts := manuscripts)
      {
        ClearCopyrightForm(t.manuscripts, rs, m, failing, before);
        m := m + 1;
      }
    }

    /** One manuscript of the second loop: its copyright form deleted and cleared when it is targeted. */
    method ClearCopyrightForm(ms: seq<Manuscript>, rs: seq<Revision>, m: nat, failing: set<string>, ghost before: set<string>)
      requires Valid() && m < |ms| && manuscripts == H.ClearedFormsUpTo(ms, rs, m)
      requires files == before - (H.CopyrightPaths(ms, rs, m) - failing)
      modifies this
      ensures Valid()
      ensures manuscripts == H.ClearedFormsUpTo(ms, rs, m + 1)
      ensures files == before - (H.CopyrightPaths(ms, rs, m + 1) - failing)
      ensures Snapshot() == old(Snapshot()).(manuscripts := manuscripts)
    {
      if H.Targeted(rs, m) {
        DeleteIfPresent(manuscripts[m].copyrightForm, failing);
        RemoveMore(before, H.CopyrightPaths(ms, rs, m), H.Present(ms[m].copyrightForm), failing);
        var row := manuscripts[m].(copyrightForm := None);
        V.ManuscriptEditKeepsVersioned(manuscripts, revisions, m, row);
        manuscripts := manuscripts[m := row];
      }
    }
  }
}

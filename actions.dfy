/**
 * The two dispatch tables of the manuscript controller: which actions a list row
 * offers to a user of a given section under a given list filter
 * (`manuscriptListAction`), and which handler a posted action runs, including the
 * status each status-changing action moves the current revision to (`postAction`).
 */
module ActionTable {
  import opened Wrappers
  import opened ActionEnum
  import StatusEnum
  import FilterEnum
  import SectionEnum

  type Section = SectionEnum.Section
  type Filter = FilterEnum.Filter
  type Status = StatusEnum.Status

  /** The filters under which the editor-in-chief is never offered "update comment reply". */
  predicate NoReplyFilter(f: Filter)
  {
    f == FilterEnum.ConditionallyAccepted || f == FilterEnum.UnderSimilarityCheck
    || f == FilterEnum.UnderPagination || f == FilterEnum.UnderGrammarCheck
    || f == FilterEnum.ReadyForAccept || f == FilterEnum.Formatter
    || f == FilterEnum.Proofreader || f == FilterEnum.ReadyArticle
    || f == FilterEnum.Production
  }

  /** Appends `xs` when `c` holds, as each `if (...) { $actions[] = ...; }` block does. */
  function When(c: bool, xs: seq<Action>): seq<Action>
  {
    if c then xs else []
  }

  /** The actions the role-independent prefix of the list offers: view, and the editor-in-chief's edit and reply. */
  function CommonActions(s: Section, f: Filter, revisionCount: nat): seq<Action>
  {
    [View]
    + When(f == FilterEnum.Pending && s == SectionEnum.Author, [Edit])
    + When(s == SectionEnum.EditorInChief, [Edit])
    + When(s == SectionEnum.EditorInChief && revisionCount > 1 && !NoReplyFilter(f), [UpdateCommentReply])
  }

  /**
   * The actions the remaining blocks add. Every block is guarded by one filter and one
   * section, and no two blocks for the same filter and section exist, so at most one
   * block fires; the arms below list them by filter.
   */
  function WorkflowActions(s: Section, f: Filter): seq<Action>
  {
    var eic := s == SectionEnum.EditorInChief;
    match f
    case Pending => When(eic, [Delete])
    case WithAe => When(eic, [AssignAssociateEditor, Withdraw])
    case UnderRevision =>
      When(s == SectionEnum.Author, [Revise]) + When(eic, [RemindAuthor, Withdraw])
    case Review => When(s == SectionEnum.Reviewer, [Review])
    case Invite => When(s == SectionEnum.AssociateEditor, [InviteReviewer])
    case Invited => When(s == SectionEnum.AssociateEditor, [InviteMoreReviewer])
    case Reviewed => When(s == SectionEnum.AssociateEditor, [SendToEic])
    case Submitted => When(eic, [AssignAssociateEditor, ConditionallyAccept, Accept, Withdraw, Reject])
    case WithEic => When(eic, [MinorRevision, MajorRevision, ConditionallyAccept, Accept, Withdraw, Reject])
    case ConditionallyAccepted => When(eic, [SendForSimilarityCheck, Accept, Withdraw, Reject])
    case ReadyForAccept => When(eic, [Accept, Withdraw, Reject])
    case Accepted => When(eic, [Formatter, Withdraw, Reject])
    case ReadyArticle => When(eic, [Publication])
    case Proofreader => When(eic, [Proofreader])
    case Production => When(eic, [Publication, Withdraw, Reject])
    case Publication => When(eic, [Publish, Withdraw, Reject])
    case UnderSimilarityCheck => When(s == SectionEnum.Epm, [UpdateSimilarity])
    case UnderPagination => When(s == SectionEnum.Epm, [UpdatePages])
    case UnderGrammarCheck => When(s == SectionEnum.Epm, [GrammarUpdated])
    case _ => []
  }

  /**
   * `manuscriptListAction`: the actions a list row offers, in the order the controller
   * appends them. `revisionCount` is the number of revisions the manuscript has.
   */
  function ListActions(s: Section, f: Filter, revisionCount: nat): (actions: seq<Action>)
    ensures |actions| >= 1 && actions[0] == View
  {
    CommonActions(s, f, revisionCount) + WorkflowActions(s, f)
  }

  /** An author may edit only an unsubmitted manuscript and revise only one under revision, and is offered nothing else. */
  lemma AuthorActions(f: Filter, revisionCount: nat)
    ensures ListActions(SectionEnum.Author, f, revisionCount)
      == [View] + When(f == FilterEnum.Pending, [Edit]) + When(f == FilterEnum.UnderRevision, [Revise])
    ensures Edit in ListActions(SectionEnum.Author, f, revisionCount) <==> f == FilterEnum.Pending
    ensures Revise in ListActions(SectionEnum.Author, f, revisionCount) <==> f == FilterEnum.UnderRevision
  {
  }

  /** A reviewer gains exactly one action, Review, and only under the Review list. */
  lemma ReviewerActions(f: Filter, revisionCount: nat)
    ensures ListActions(SectionEnum.Reviewer, f, revisionCount)
      == if f == FilterEnum.Review then [View, Review] else [View]
  {
  }

  /** The update action of a production-stage list, if the filter is one. */
  function StageUpdate(f: Filter): Option<Action>
  {
    if f == FilterEnum.UnderSimilarityCheck then Some(UpdateSimilarity)
    else if f == FilterEnum.UnderPagination then Some(UpdatePages)
    else if f == FilterEnum.UnderGrammarCheck then Some(GrammarUpdated)
    else None
  }

  /** The production manager gains exactly the one update action of each stage list, and nothing elsewhere. */
  lemma EpmActions(f: Filter, revisionCount: nat)
    ensures ListActions(SectionEnum.Epm, f, revisionCount)
      == if StageUpdate(f).Some? then [View, StageUpdate(f).value] else [View]
  {
  }

  /** The associate editor gains one action on each of its three reviewing lists. */
  lemma AssociateEditorActions(f: Filter, revisionCount: nat)
    ensures ListActions(SectionEnum.AssociateEditor, f, revisionCount)
      == [View] + When(f == FilterEnum.Invite, [InviteReviewer])
                + When(f == FilterEnum.Invited, [InviteMoreReviewer])
                + When(f == FilterEnum.Reviewed, [SendToEic])
  {
  }

  /** Admin, formatter, proofreader and ready-article users can only view. */
  lemma ViewOnlySections(s: Section, f: Filter, revisionCount: nat)
    requires s == SectionEnum.Admin || s == SectionEnum.Formatter
          || s == SectionEnum.Proofreader || s == SectionEnum.ReadyArticle
    ensures ListActions(s, f, revisionCount) == [View]
  {
  }

  /**
   * The editor-in-chief may always edit, and is offered "update comment reply" exactly when
   * the manuscript has been revised and the list is not one of the post-acceptance lists.
   */
  lemma EditorInChiefActions(f: Filter, revisionCount: nat)
    ensures ListActions(SectionEnum.EditorInChief, f, revisionCount)[..2] == [View, Edit]
    ensures UpdateCommentReply in ListActions(SectionEnum.EditorInChief, f, revisionCount)
        <==> revisionCount > 1 && !NoReplyFilter(f)
  {
    var actions := ListActions(SectionEnum.EditorInChief, f, revisionCount);
    assert UpdateCommentReply !in WorkflowActions(SectionEnum.EditorInChief, f);
    assert actions == CommonActions(SectionEnum.EditorInChief, f, revisionCount) + WorkflowActions(SectionEnum.EditorInChief, f);
  }

  /** Outside view, edit and reply, the editor-in-chief is offered exactly what the filter's own block adds. */
  lemma EditorInChiefWorkflow(f: Filter, revisionCount: nat, x: Action)
    requires x != View && x != Edit && x != UpdateCommentReply
    ensures x in ListActions(SectionEnum.EditorInChief, f, revisionCount) <==> x in WorkflowActions(SectionEnum.EditorInChief, f)
  {
    var common := CommonActions(SectionEnum.EditorInChief, f, revisionCount);
    assert forall y :: y in common ==> y == View || y == Edit || y == UpdateCommentReply;
  }

  /** Acceptance is offered on the submitted, with-EIC, conditionally-accepted and ready-for-accept lists. */
  lemma EditorInChiefAccept(f: Filter, revisionCount: nat)
    ensures Accept in ListActions(SectionEnum.EditorInChief, f, revisionCount)
        <==> f in {FilterEnum.Submitted, FilterEnum.WithEic, FilterEnum.ConditionallyAccepted, FilterEnum.ReadyForAccept}
  {
    EditorInChiefWorkflow(f, revisionCount, Accept);
  }

  /** Conditional acceptance is offered on the submitted and with-EIC lists. */
  lemma EditorInChiefConditionallyAccept(f: Filter, revisionCount: nat)
    ensures ConditionallyAccept in ListActions(SectionEnum.EditorInChief, f, revisionCount)
        <==> f in {FilterEnum.Submitted, FilterEnum.WithEic}
  {
    EditorInChiefWorkflow(f, revisionCount, ConditionallyAccept);
  }

  /** A minor revision is requested only from the with-EIC list. */
  lemma EditorInChiefMinorRevision(f: Filter, revisionCount: nat)
    ensures MinorRevision in ListActions(SectionEnum.EditorInChief, f, revisionCount)
        <==> f == FilterEnum.WithEic
  {
    EditorInChiefWorkflow(f, revisionCount, MinorRevision);
  }

  /** A major revision is requested only from the with-EIC list. */
  lemma EditorInChiefMajorRevision(f: Filter, revisionCount: nat)
    ensures MajorRevision in ListActions(SectionEnum.EditorInChief, f, revisionCount)
        <==> f == FilterEnum.WithEic
  {
    EditorInChiefWorkflow(f, revisionCount, MajorRevision);
  }

  /** Rejection is offered from the submitted list through to the publication list, except on the ready-article and proofreader lists. */
  lemma EditorInChiefReject(f: Filter, revisionCount: nat)
    ensures Reject in ListActions(SectionEnum.EditorInChief, f, revisionCount)
        <==> f in {FilterEnum.Submitted, FilterEnum.WithEic, FilterEnum.ConditionallyAccepted, FilterEnum.ReadyForAccept, FilterEnum.Accepted, FilterEnum.Production, FilterEnum.Publication}
  {
    EditorInChiefWorkflow(f, revisionCount, Reject);
  }

  /** Withdrawal is offered wherever rejection is, and also on the with-AE and under-revision lists. */
  lemma EditorInChiefWithdraw(f: Filter, revisionCount: nat)
    ensures Withdraw in ListActions(SectionEnum.EditorInChief, f, revisionCount)
        <==> f in {FilterEnum.WithAe, FilterEnum.UnderRevision, FilterEnum.Submitted, FilterEnum.WithEic, FilterEnum.ConditionallyAccepted, FilterEnum.ReadyForAccept, FilterEnum.Accepted, FilterEnum.Production, FilterEnum.Publication}
  {
    EditorInChiefWorkflow(f, revisionCount, Withdraw);
  }

  /** Only a pending manuscript can be deleted. */
  lemma EditorInChiefDelete(f: Filter, revisionCount: nat)
    ensures Delete in ListActions(SectionEnum.EditorInChief, f, revisionCount)
        <==> f == FilterEnum.Pending
  {
    EditorInChiefWorkflow(f, revisionCount, Delete);
  }

  /** An associate editor is assigned from the submitted and with-AE lists. */
  lemma EditorInChiefAssignEditor(f: Filter, revisionCount: nat)
    ensures AssignAssociateEditor in ListActions(SectionEnum.EditorInChief, f, revisionCount)
        <==> f in {FilterEnum.Submitted, FilterEnum.WithAe}
  {
    EditorInChiefWorkflow(f, revisionCount, AssignAssociateEditor);
  }

  /** The author is reminded only while the manuscript is under revision. */
  lemma EditorInChiefRemindAuthor(f: Filter, revisionCount: nat)
    ensures RemindAuthor in ListActions(SectionEnum.EditorInChief, f, revisionCount)
        <==> f == FilterEnum.UnderRevision
  {
    EditorInChiefWorkflow(f, revisionCount, RemindAuthor);
  }

  /** A manuscript is sent for similarity check only from the conditionally-accepted list. */
  lemma EditorInChiefSimilarityCheck(f: Filter, revisionCount: nat)
    ensures SendForSimilarityCheck in ListActions(SectionEnum.EditorInChief, f, revisionCount)
        <==> f == FilterEnum.ConditionallyAccepted
  {
    EditorInChiefWorkflow(f, revisionCount, SendForSimilarityCheck);
  }

  /** An accepted manuscript is sent to the formatter. */
  lemma EditorInChiefFormatter(f: Filter, revisionCount: nat)
    ensures Formatter in ListActions(SectionEnum.EditorInChief, f, revisionCount)
        <==> f == FilterEnum.Accepted
  {
    EditorInChiefWorkflow(f, revisionCount, Formatter);
  }

  /** The proofreader hand-off is offered only on the proofreader list. */
  lemma EditorInChiefProofreader(f: Filter, revisionCount: nat)
    ensures Proofreader in ListActions(SectionEnum.EditorInChief, f, revisionCount)
        <==> f == FilterEnum.Proofreader
  {
    EditorInChiefWorkflow(f, revisionCount, Proofreader);
  }

  /** A manuscript moves to publication from the ready-article and production lists. */
  lemma EditorInChiefPublication(f: Filter, revisionCount: nat)
    ensures Publication in ListActions(SectionEnum.EditorInChief, f, revisionCount)
        <==> f in {FilterEnum.ReadyArticle, FilterEnum.Production}
  {
    EditorInChiefWorkflow(f, revisionCount, Publication);
  }

  /** Publishing is offered only on the publication list. */
  lemma EditorInChiefPublish(f: Filter, revisionCount: nat)
    ensures Publish in ListActions(SectionEnum.EditorInChief, f, revisionCount)
        <==> f == FilterEnum.Publication
  {
    EditorInChiefWorkflow(f, revisionCount, Publish);
  }

  /** The handler `postAction` dispatches an action to. */
  datatype Handler =
    | StoreUpdate
    | AddRevisionReviewer
    | AddRevisionReviewers
    | AddRevisionReviewerManually
    | RemoveRevisionReviewer
    | UpdateReviewers
    | AddRevisionAuthor
    | AddRevisionAuthorManually
    | RemoveRevisionAuthor
    | UpdateAuthors
    | SubmitManuscript
    | AssignEditor
    | UpdateInvite
    | InviteRevisionReviewer
    | ReinviteRevisionReviewer
    | RemindRevisionReviewer
    | AddReview
    | UpdateReview
    | SendToEditorInChief
    | RevisionRequired(status: Status)
    | UpdateRevise
    | UpdateStatus(status: Status)
    | SendForSimilarity
    | UpdateSimilarityResult
    | UpdateFormatterStage
    | UpdateProofreaderStage
    | SendForPaginationStage
    | UpdatePagesResult
    | SendForGrammar
    | MarkGrammarUpdated
    | UpdateCommentReplyHandler
    | RemindCorrespondingAuthor
    | GetFormatter
    | NotFound

  /** The status an `updateStatus` action moves the current revision to. */
  function StatusTarget(a: Action): Option<Status>
  {
    match a
    case Withdraw => Some(StatusEnum.Withdrawn)
    case Delete => Some(StatusEnum.Deleted)
    case ConditionallyAccept => Some(StatusEnum.ConditionallyAccepted)
    case Accept => Some(StatusEnum.Accepted)
    case Reject => Some(StatusEnum.Rejected)
    case Production => Some(StatusEnum.Production)
    case Publication => Some(StatusEnum.Publication)
    case Formatter => Some(StatusEnum.Formatter)
    case Proofreader => Some(StatusEnum.Proofreader)
    case Publish => Some(StatusEnum.Published)
    case _ => None
  }

  /** The status a revision-request action moves the current revision to. */
  function RevisionTarget(a: Action): Option<Status>
  {
    match a
    case MinorRevision => Some(StatusEnum.MinorRevision)
    case MajorRevision => Some(StatusEnum.MajorRevision)
    case _ => None
  }

  /** `postAction`: the handler of a posted action; `NotFound` is the `abort(404)` default arm. */
  function PostHandler(a: Action): (h: Handler)
    ensures h == StoreUpdate <==> a == Create || a == Edit
  {
    if StatusTarget(a).Some? then UpdateStatus(StatusTarget(a).value)
    else if RevisionTarget(a).Some? then RevisionRequired(RevisionTarget(a).value)
    else
      match a
      case Create => StoreUpdate
      case Edit => StoreUpdate
      case AddReviewer => AddRevisionReviewer
      case AddReviewers => AddRevisionReviewers
      case AddReviewerManually => AddRevisionReviewerManually
      case RemoveReviewer => RemoveRevisionReviewer
      case Reviewers => UpdateReviewers
      case AddAuthor => AddRevisionAuthor
      case AddAuthorManually => AddRevisionAuthorManually
      case RemoveAuthor => RemoveRevisionAuthor
      case Authors => UpdateAuthors
      case Submit => SubmitManuscript
      case AssignAssociateEditor => AssignEditor
      case Invite => UpdateInvite
      case InviteReviewer => InviteRevisionReviewer
      case ReinviteReviewer => ReinviteRevisionReviewer
      case RemindReviewer => RemindRevisionReviewer
      case Review => AddReview
      case UpdateComment => UpdateReview
      case SendToEic => SendToEditorInChief
      case Revise => UpdateRevise
      case SendForSimilarityCheck => SendForSimilarity
      case UpdateSimilarity => UpdateSimilarityResult
      case UpdateFormatter => UpdateFormatterStage
      case UpdateProofreader => UpdateProofreaderStage
      case SendForPagination => SendForPaginationStage
      case UpdatePages => UpdatePagesResult
      case SendForGrammarCheck => SendForGrammar
      case GrammarUpdated => MarkGrammarUpdated
      case UpdateCommentReply => UpdateCommentReplyHandler
      case RemindAuthor => RemindCorrespondingAuthor
      case GetProofreader => GetFormatter
      case _ => NotFound
  }

  /** Exactly ten actions change the status, and no two of them to the same status. */
  lemma StatusTargetsInjective(a: Action, b: Action)
    requires StatusTarget(a).Some? && StatusTarget(a) == StatusTarget(b)
    ensures a == b
  {
  }

  /** The status-changing actions run `updateStatus` with their target, and never aim at a status the workflow reaches otherwise. */
  lemma StatusActionsDispatch(a: Action)
    ensures StatusTarget(a).Some? ==> PostHandler(a) == UpdateStatus(StatusTarget(a).value)
    ensures StatusTarget(a).Some? ==>
      var s := StatusTarget(a).value;
      s != StatusEnum.Pending && s != StatusEnum.Submitted && !s.IsRevisionRequired() && s != StatusEnum.ReadyArticle
    ensures (exists s :: PostHandler(a) == UpdateStatus(s)) <==> StatusTarget(a).Some?
  {
  }

  /** Minor and major revision requests run `revisionRequired` with the matching revision-required status. */
  lemma RevisionActionsDispatch(a: Action)
    ensures RevisionTarget(a).Some? <==> a == MinorRevision || a == MajorRevision
    ensures RevisionTarget(a).Some? ==>
      PostHandler(a) == RevisionRequired(RevisionTarget(a).value)
      && RevisionTarget(a).value.IsRevisionRequired()
      && RevisionTarget(a).value.Value() == a.Value()
  {
  }

  /** Posting View, "invite more reviewers" or a reviewer's invitation answer is not found. */
  lemma PostNotFound(a: Action)
    ensures PostHandler(a) == NotFound <==>
      a == View || a == InviteMoreReviewer || a == AcceptReviewInvite || a == DenyReviewInvite
  {
  }

  /** Only the editor-in-chief is offered an action that changes the status or asks for a revision. */
  lemma StatusChangesOnlyForEditorInChief(s: Section, f: Filter, revisionCount: nat, i: nat)
    requires i < |ListActions(s, f, revisionCount)|
    requires StatusTarget(ListActions(s, f, revisionCount)[i]).Some?
          || RevisionTarget(ListActions(s, f, revisionCount)[i]).Some?
    ensures s == SectionEnum.EditorInChief
  {
    var a := ListActions(s, f, revisionCount)[i];
    var common := CommonActions(s, f, revisionCount);
    if i < |common| {
      CommonActionsUntargeted(s, f, revisionCount, i);
      assert false;
    } else {
      assert a == WorkflowActions(s, f)[i - |common|];
      WorkflowTargetsNeedEditorInChief(s, f, a);
    }
  }

  lemma CommonActionsUntargeted(s: Section, f: Filter, revisionCount: nat, i: nat)
    requires i < |CommonActions(s, f, revisionCount)|
    ensures var a := CommonActions(s, f, revisionCount)[i];
      a == ListActions(s, f, revisionCount)[i] && StatusTarget(a).None? && RevisionTarget(a).None?
  {
    var common := CommonActions(s, f, revisionCount);
    assert common[i] in common;
  }

  lemma WorkflowTargetsNeedEditorInChief(s: Section, f: Filter, a: Action)
    requires a in WorkflowActions(s, f)
    requires StatusTarget(a).Some? || RevisionTarget(a).Some?
    ensures s == SectionEnum.EditorInChief
  {
  }

  /** The actions that are offered on every list of a section regardless of the filter. */
  predicate Unconditional(a: Action)
  {
    a == View || a == Edit || a == UpdateCommentReply
  }

  /**
   * Every filter-specific action is offered only under a list the section's own menu
   * shows: the action table and the navigation menu agree.
   */
  lemma ActionsFollowMenu(s: Section, f: Filter, revisionCount: nat, a: Action)
    requires a in ListActions(s, f, revisionCount) && !Unconditional(a)
    ensures f in SectionEnum.MenuFilters(s)
  {
    assert a in WorkflowActions(s, f);
    if s == SectionEnum.EditorInChief {
      WorkflowActionsInEditorInChiefMenu(f, a);
    }
  }

  lemma WorkflowActionsInEditorInChiefMenu(f: Filter, a: Action)
    requires a in WorkflowActions(SectionEnum.EditorInChief, f)
    ensures f in SectionEnum.MenuFilters(SectionEnum.EditorInChief)
  {
    SectionEnum.EditorInChiefMenu(f);
  }
}

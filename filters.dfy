/**
 * The manuscript lists: which manuscripts a signed-in user sees under a list filter
 * (`Manuscript::scopeFilterForUserAndStatus`), the review-state scopes of a revision
 * (`Revision::scopeReviewPending` / `scopeReviewCompleted`), and the selections of the
 * formatter's and proofreader's lists. Every predicate reads one manuscript together with
 * its current revision and the rows hanging off it.
 */
module ListFilters {
  import opened Wrappers
  import opened Records
  import StatusEnum
  import SectionEnum
  import FilterEnum

  type Status = StatusEnum.Status
  type Filter = FilterEnum.Filter

  /**
   * What a list query sees of one manuscript: the manuscript row, its current revision
   * (the `revision` relation, absent when the pointer is unset), the reviewer rows, author
   * rows and reviews of that revision, and the reviews of every revision of the manuscript.
   */
  datatype Listing = Listing(
    manuscript: Manuscript,
    current: Option<Revision>,
    currentReviewers: seq<ReviewerRow>,
    currentAuthors: seq<AuthorRow>,
    currentReviews: seq<Review>,
    allReviews: seq<Review>)

  /** `scopeStatus`: there is a current revision and it has status `s`. */
  predicate StatusIs(l: Listing, s: Status)
  {
    l.current.Some? && l.current.value.status == s
  }

  /** Some reviewer row of the current revision has been invited. */
  predicate AnyInvited(rows: seq<ReviewerRow>)
  {
    exists i :: 0 <= i < |rows| && rows[i].invitedAt.Some?
  }

  /** `reviewPending($reviewer)`: an invited, accepted, not denied row for the reviewer id, and no review by that id. */
  predicate ReviewPending(rows: seq<ReviewerRow>, reviews: seq<Review>, reviewerId: nat)
  {
    (exists i :: 0 <= i < |rows| && rows[i].invitedAt.Some? && rows[i].acceptedAt.Some?
      && rows[i].deniedAt.None? && rows[i].reviewer.Key() == reviewerId)
    && !ReviewCompleted(reviews, reviewerId)
  }

  /** `reviewCompleted($reviewer)`: a review by the reviewer id. */
  predicate ReviewCompleted(reviews: seq<Review>, reviewerId: nat)
  {
    exists i :: 0 <= i < |reviews| && reviews[i].reviewerId == reviewerId
  }

  /** The first half of the query: what the user's section may see at all. */
  predicate RoleScope(user: User, l: Listing)
  {
    match user.section
    case Author => l.manuscript.authorId == user.id
    case AssociateEditor => l.current.Some? && l.current.value.associateEditorId == Some(user.id)
    case _ => true
  }

  /**
   * The number the associate editor's REVIEWED list compares with `minimum_reviews`: the
   * count of reviews filtered by `comments_to_eic IS NULL`, a column only the revision has,
   * so the filter keeps every review or none.
   */
  function ReviewsWithoutComments(l: Listing): nat
    requires l.current.Some?
  {
    if l.current.value.commentsToEic.None? then |l.currentReviews| else 0
  }

  /** The second half of the query: the list filter, read on the current revision. */
  predicate FilterScope(user: User, f: Filter, l: Listing)
    ensures FilterScope(user, f, l) && f != FilterEnum.Review && f != FilterEnum.Reviewed ==> l.current.Some?
    ensures FilterScope(user, f, l) && StatusIs(l, StatusEnum.Deleted) ==>
      f == FilterEnum.Deleted || f == FilterEnum.Review || f == FilterEnum.Reviewed
  {
    match f
    case Invite => StatusIs(l, StatusEnum.Submitted) && !AnyInvited(l.currentReviewers)
    case Invited =>
      StatusIs(l, StatusEnum.Submitted) && l.current.value.commentsToEic.None? && AnyInvited(l.currentReviewers)
    case Review =>
      user.section == SectionEnum.Reviewer ==>
        StatusIs(l, StatusEnum.Submitted) && ReviewPending(l.currentReviewers, l.currentReviews, user.id)
    case Reviewed =>
      if user.section == SectionEnum.Reviewer then ReviewCompleted(l.allReviews, user.id)
      else if user.section == SectionEnum.AssociateEditor then
        StatusIs(l, StatusEnum.Submitted) && ReviewsWithoutComments(l) >= l.current.value.minimumReviews
      else true
    case UnderRevision => l.current.Some? && l.current.value.status.IsRevisionRequired()
    case WithAe =>
      StatusIs(l, StatusEnum.Submitted) && l.current.value.associateEditorId.Some? && l.current.value.commentsToEic.None?
    case WithEic => StatusIs(l, StatusEnum.Submitted) && l.current.value.commentsToEic.Some?
    case Pending => StatusIs(l, StatusEnum.Pending)
    case Submitted =>
      if user.section == SectionEnum.Author then StatusIs(l, StatusEnum.Submitted) && !AnyInvited(l.currentReviewers)
      else if user.section == SectionEnum.EditorInChief then
        StatusIs(l, StatusEnum.Submitted) && l.current.value.associateEditorId.None?
      else StatusIs(l, StatusEnum.Submitted)
    case UnderReview => StatusIs(l, StatusEnum.Submitted) && AnyInvited(l.currentReviewers)
    case Withdrawn => StatusIs(l, StatusEnum.Withdrawn)
    case Deleted => StatusIs(l, StatusEnum.Deleted)
    case Rejected => StatusIs(l, StatusEnum.Rejected)
    case ConditionallyAccepted =>
      StatusIs(l, StatusEnum.ConditionallyAccepted) && !l.current.value.similarityCheckRequired
    case UnderSimilarityCheck =>
      StatusIs(l, StatusEnum.ConditionallyAccepted) && l.current.value.similarityCheckRequired && l.current.value.similarity.None?
    case UnderPagination =>
      StatusIs(l, StatusEnum.ConditionallyAccepted) && l.current.value.paginationRequired && l.current.value.pages.None?
    case UnderGrammarCheck =>
      StatusIs(l, StatusEnum.ConditionallyAccepted) && l.current.value.grammarCheckRequired && l.current.value.grammarUpdated.None?
    case ReadyForAccept =>
      StatusIs(l, StatusEnum.ConditionallyAccepted) && l.current.value.grammarCheckRequired && l.current.value.grammarUpdated.Some?
    case Accepted => StatusIs(l, StatusEnum.Accepted)
    case Production => StatusIs(l, StatusEnum.Production)
    case Publication => StatusIs(l, StatusEnum.Publication)
    case Published => StatusIs(l, StatusEnum.Published)
    case Formatter => StatusIs(l, StatusEnum.Formatter)
    case Proofreader => StatusIs(l, StatusEnum.Proofreader)
    case ReadyArticle => StatusIs(l, StatusEnum.ReadyArticle)
  }

  /** `filterForUserAndStatus($user, $filter)`: the manuscript is on the user's list. */
  predicate Selected(user: User, f: Filter, l: Listing)
  {
    RoleScope(user, l) && FilterScope(user, f, l)
  }

  /** An author sees only manuscripts they own; an associate editor only those whose current revision names them; every other section is not narrowed by role. */
  lemma RoleScoping(user: User, f: Filter, l: Listing)
    ensures Selected(user, f, l) && user.section == SectionEnum.Author ==> l.manuscript.authorId == user.id
    ensures Selected(user, f, l) && user.section == SectionEnum.AssociateEditor ==>
      l.current.Some? && l.current.value.associateEditorId == Some(user.id)
    ensures user.section != SectionEnum.Author && user.section != SectionEnum.AssociateEditor ==>
      (Selected(user, f, l) <==> FilterScope(user, f, l))
  {
  }

  /** The status a plain status list shows: the filter with the same value as a status. */
  function FilterStatus(f: Filter): (s: Option<Status>)
    ensures s.Some? ==> s.value.Value() == f.Value()
  {
    match f
    case Pending => Some(StatusEnum.Pending)
    case Withdrawn => Some(StatusEnum.Withdrawn)
    case Deleted => Some(StatusEnum.Deleted)
    case Rejected => Some(StatusEnum.Rejected)
    case Accepted => Some(StatusEnum.Accepted)
    case Production => Some(StatusEnum.Production)
    case Publication => Some(StatusEnum.Publication)
    case Published => Some(StatusEnum.Published)
    case Formatter => Some(StatusEnum.Formatter)
    case Proofreader => Some(StatusEnum.Proofreader)
    case ReadyArticle => Some(StatusEnum.ReadyArticle)
    case _ => None
  }

  /** The eleven plain status lists select exactly the manuscripts whose current revision has that status, for every user. */
  lemma PlainStatusFilters(user: User, f: Filter, l: Listing)
    requires FilterStatus(f).Some?
    ensures FilterScope(user, f, l) <==> StatusIs(l, FilterStatus(f).value)
  {
  }

  /** UNDER_REVISION is exactly "the current revision awaits a minor or a major revision". */
  lemma UnderRevisionFilter(user: User, l: Listing)
    ensures FilterScope(user, FilterEnum.UnderRevision, l)
        <==> StatusIs(l, StatusEnum.MinorRevision) || StatusIs(l, StatusEnum.MajorRevision)
  {
  }

  /**
   * WITH_AE and WITH_EIC never share a manuscript; for the editor-in-chief neither do
   * SUBMITTED and WITH_AE, and together they cover every submitted manuscript the
   * associate editor has not yet passed on.
   */
  lemma HandOverListsDisjoint(user: User, l: Listing)
    ensures !(FilterScope(user, FilterEnum.WithAe, l) && FilterScope(user, FilterEnum.WithEic, l))
    ensures user.section == SectionEnum.EditorInChief ==>
      !(FilterScope(user, FilterEnum.Submitted, l) && FilterScope(user, FilterEnum.WithAe, l))
    ensures user.section == SectionEnum.EditorInChief && StatusIs(l, StatusEnum.Submitted) && l.current.value.commentsToEic.None? ==>
      FilterScope(user, FilterEnum.Submitted, l) || FilterScope(user, FilterEnum.WithAe, l)
  {
  }

  /** INVITE and UNDER_REVIEW split the submitted manuscripts by whether anyone has been invited; an author's SUBMITTED list is the INVITE list. */
  lemma InvitationSplit(user: User, l: Listing)
    ensures StatusIs(l, StatusEnum.Submitted) <==>
      FilterScope(user, FilterEnum.Invite, l) || FilterScope(user, FilterEnum.UnderReview, l)
    ensures !(FilterScope(user, FilterEnum.Invite, l) && FilterScope(user, FilterEnum.UnderReview, l))
    ensures user.section == SectionEnum.Author ==>
      (FilterScope(user, FilterEnum.Submitted, l) <==> FilterScope(user, FilterEnum.Invite, l))
  {
  }

  /** The five acceptance-stage lists. */
  predicate IsAcceptanceStage(f: Filter)
  {
    f == FilterEnum.ConditionallyAccepted || f == FilterEnum.UnderSimilarityCheck
    || f == FilterEnum.UnderPagination || f == FilterEnum.UnderGrammarCheck || f == FilterEnum.ReadyForAccept
  }

  /**
   * Every acceptance-stage list needs status conditionally-accepted; the plain list and the
   * similarity list are told apart by the similarity flag, and the grammar lists by
   * whether a grammar result is recorded.
   */
  lemma AcceptanceStageLists(user: User, f: Filter, l: Listing)
    ensures IsAcceptanceStage(f) && FilterScope(user, f, l) ==> StatusIs(l, StatusEnum.ConditionallyAccepted)
    ensures !(FilterScope(user, FilterEnum.ConditionallyAccepted, l) && FilterScope(user, FilterEnum.UnderSimilarityCheck, l))
    ensures !(FilterScope(user, FilterEnum.UnderGrammarCheck, l) && FilterScope(user, FilterEnum.ReadyForAccept, l))
    ensures StatusIs(l, StatusEnum.ConditionallyAccepted) && l.current.value.grammarCheckRequired ==>
      FilterScope(user, FilterEnum.UnderGrammarCheck, l) || FilterScope(user, FilterEnum.ReadyForAccept, l)
  {
  }

  /**
   * For an associate editor, REVIEWED means submitted and either not yet passed on to the
   * editor-in-chief with at least `minimum_reviews` reviews on the current revision, or
   * passed on with a minimum of zero; when at least one review is asked for, only the
   * first way remains.
   */
  lemma ReviewedForAssociateEditor(user: User, l: Listing)
    requires user.section == SectionEnum.AssociateEditor
    ensures FilterScope(user, FilterEnum.Reviewed, l) <==>
      StatusIs(l, StatusEnum.Submitted)
      && (if l.current.value.commentsToEic.None? then |l.currentReviews| >= l.current.value.minimumReviews
          else l.current.value.minimumReviews == 0)
    ensures l.current.Some? && l.current.value.minimumReviews >= 1 ==>
      (FilterScope(user, FilterEnum.Reviewed, l) <==>
        StatusIs(l, StatusEnum.Submitted) && l.current.value.commentsToEic.None?
        && |l.currentReviews| >= l.current.value.minimumReviews)
  {
  }

  /** Pending and completed review never hold together for one reviewer and one revision. */
  lemma ReviewStatesExclusive(rows: seq<ReviewerRow>, reviews: seq<Review>, reviewerId: nat)
    ensures !(ReviewPending(rows, reviews, reviewerId) && ReviewCompleted(reviews, reviewerId))
  {
  }

  /** Adding the reviewer's review ends "pending" and starts "completed". */
  lemma ReviewMovesToCompleted(rows: seq<ReviewerRow>, reviews: seq<Review>, r: Review)
    ensures ReviewCompleted(reviews + [r], r.reviewerId)
    ensures !ReviewPending(rows, reviews + [r], r.reviewerId)
  {
    assert (reviews + [r])[|reviews|] == r;
  }

  /** The user is linked to the current revision through an author row, whatever kind of person the row names. */
  predicate LinkedAsRevisionAuthor(user: User, l: Listing)
  {
    exists i :: 0 <= i < |l.currentAuthors| && l.currentAuthors[i].author.Key() == user.id
  }

  /** The formatter's list: linked, in formatter status, and on the user's list for the requested filter. */
  predicate FormatterListed(user: User, f: Filter, l: Listing)
  {
    LinkedAsRevisionAuthor(user, l) && StatusIs(l, StatusEnum.Formatter) && Selected(user, f, l)
  }

  /** The proofreader's list: linked and in proofreader status; no list filter applies. */
  predicate ProofreaderListed(user: User, l: Listing)
  {
    LinkedAsRevisionAuthor(user, l) && StatusIs(l, StatusEnum.Proofreader)
  }

  /**
   * Under the filter its menu entry passes, the formatter's list is "linked and in
   * formatter status"; under any other plain status filter, such as the default PENDING,
   * it is empty.
   */
  lemma FormatterList(user: User, f: Filter, l: Listing)
    requires user.section == SectionEnum.Formatter
    ensures FormatterListed(user, FilterEnum.Formatter, l)
        <==> LinkedAsRevisionAuthor(user, l) && StatusIs(l, StatusEnum.Formatter)
    ensures FilterStatus(f).Some? && f != FilterEnum.Formatter ==> !FormatterListed(user, f, l)
  {
    if FilterStatus(f).Some? && f != FilterEnum.Formatter {
      OtherStatusHidesFormatterList(user, f, l);
    }
  }

  lemma OtherStatusHidesFormatterList(user: User, f: Filter, l: Listing)
    requires FilterStatus(f).Some? && f != FilterEnum.Formatter
    ensures !FormatterListed(user, f, l)
  {
  }
}

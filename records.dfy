/**
 * The rows of the editorial database: manuscripts, their revisions, the reviewer and
 * author links of each revision, reviews, the revision event log, registered and guest
 * authors, and the notifications the workflow sends. Row ids are positions in the
 * tables that hold them; timestamps are seconds since the Unix epoch.
 */
module Records {
  import opened Wrappers
  import StatusEnum
  import SectionEnum
  import EventEnum
  import TypeEnum
  import ReviewDecisionEnum

  type Time = int

  /** Seconds in a day, the unit of `INTERVAL n DAY`. */
  const Day: int := 86400

  /**
   * The target of a polymorphic (`*_type`, `*_id`) reference: a registered `Author`
   * or a `GuestAuthor`, each numbered in its own table.
   */
  datatype Person = Registered(id: nat) | Guest(id: nat)
  {
    /** The bare `*_id` column, which several lookups compare without the type. */
    function Key(): nat
    {
      id
    }
  }

  /** The signed-in author a request or listener runs for. */
  datatype User = User(id: nat, section: SectionEnum.Section)

  /** A stamp written by `invite()` when a user is signed in: who, and when. */
  datatype Stamp = Stamp(userId: nat, time: Time)

  /** A `revision_reviewers` row. */
  datatype ReviewerRow = ReviewerRow(
    revisionId: nat,
    reviewer: Person,
    section: SectionEnum.Section,
    createdBy: nat,
    invitedBy: Option<nat>,
    invitedAt: Option<Time>,
    acceptedAt: Option<Time>,
    deniedAt: Option<Time>,
    inviteCount: Option<nat>,
    remindCount: Option<nat>)

  /** A `revision_authors` row. */
  datatype AuthorRow = AuthorRow(revisionId: nat, author: Person, section: SectionEnum.Section, createdBy: nat)

  /** A `reviews` row; `reviewer_id` refers to the authors table. */
  datatype Review = Review(revisionId: nat, reviewerId: nat, decision: Option<ReviewDecisionEnum.ReviewDecision>)

  /** A `revision_events` row. */
  datatype EventRow = EventRow(revisionId: nat, event: EventEnum.Event, value: StatusEnum.Status, createdBy: nat)

  /** A `revisions` row. */
  datatype Revision = Revision(
    manuscriptId: nat,
    index: nat,
    title: string,
    abstractText: string,
    keywords: string,
    novelty: Option<string>,
    commentsToEic: Option<string>,
    commentReply: Option<string>,
    anonymousFile: Option<string>,
    sourceFile: Option<string>,
    commentReplyFile: Option<string>,
    formattedPaper: Option<string>,
    correctionFile: Option<string>,
    otherFile: Option<string>,
    proofreaderPaper: Option<string>,
    status: StatusEnum.Status,
    associateEditorId: Option<nat>,
    minimumReviews: nat,
    similarityCheckRequired: bool,
    similarity: Option<nat>,
    paginationRequired: bool,
    pages: Option<nat>,
    grammarCheckRequired: bool,
    grammarUpdated: Option<bool>,
    updatedAt: Time)

  /** A `manuscripts` row; `revisionId` is the current revision. */
  datatype Manuscript = Manuscript(
    code: string,
    kind: TypeEnum.ManuscriptType,
    copyrightForm: Option<string>,
    authorId: nat,
    revisionId: Option<nat>,
    createdAt: Time)

  /** An `authors` row (registered users). */
  datatype AuthorRec = AuthorRec(
    email: string,
    firstName: Option<string>,
    middleName: Option<string>,
    lastName: Option<string>,
    section: SectionEnum.Section,
    roles: set<string>,
    isDeleted: bool)

  /** A `guest_authors` row; `trashed` is the soft-delete mark. */
  datatype GuestRec = GuestRec(
    email: string,
    firstName: Option<string>,
    middleName: Option<string>,
    lastName: Option<string>,
    createdBy: nat,
    trashed: bool)

  /** The notifications and mails the workflow sends. */
  datatype Notice =
    | Submitted
    | StatusChanged(status: StatusEnum.Status)
    | RevisionRequested
    | Revised
    | AssociateEditorAssigned
    | RevisionReminder
    | ReviewerInvited
    | ReviewerReinvitedMail
    | ReviewReminder
    | ReviewInviteDenied
    | ReviewSubmitted

  /** One notification: who receives it, what it says, and which manuscript it is about. */
  datatype Notification = Notification(recipient: Person, notice: Notice, manuscriptId: nat)

  /**
   * The tables the workflow reads and writes. A row's id is its position; a row removed
   * with `forceDelete()` leaves `None` behind, since ids are never reused.
   */
  datatype Tables = Tables(
    authors: seq<AuthorRec>,
    guests: seq<Option<GuestRec>>,
    manuscripts: seq<Manuscript>,
    revisions: seq<Revision>,
    reviewers: seq<Option<ReviewerRow>>,
    revisionAuthors: seq<AuthorRow>,
    reviews: seq<Review>,
    events: seq<EventRow>,
    notifications: seq<Notification>)
}

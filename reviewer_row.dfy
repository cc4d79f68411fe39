/**
 * The life of one `revision_reviewers` row: created when a reviewer is attached to a
 * revision, invited (possibly several times), reminded, and finally accepted or
 * denied (`RevisionReviewer::invite/remind/accept/deny` and its `creating` hook).
 */
module ReviewerLifecycle {
  import opened Wrappers
  import opened Records
  import SectionEnum

  /** `$count ??= 0`: a counter that was never written counts as zero. */
  function CountOrZero(c: Option<nat>): nat
  {
    c.GetOr(0)
  }

  /**
   * The `creating` hook: a row attached without a section or creator takes the signed-in
   * user's; a creator id of 0 is as unset as a missing one. Counters and timestamps start empty.
   */
  function NewRow(revisionId: nat, reviewer: Person, section: Option<SectionEnum.Section>, createdBy: Option<nat>, user: User): (r: ReviewerRow)
    ensures r.revisionId == revisionId && r.reviewer == reviewer
    ensures r.section == if section.Some? then section.value else user.section
    ensures r.createdBy == if createdBy.Some? && createdBy.value != 0 then createdBy.value else user.id
    ensures Fresh(r)
  {
    ReviewerRow(revisionId, reviewer,
      if section.Some? then section.value else user.section,
      if createdBy.Some? && createdBy.value != 0 then createdBy.value else user.id,
      None, None, None, None, None, None)
  }

  /** A row that has not been invited, answered or counted yet. */
  predicate Fresh(r: ReviewerRow)
  {
    r.invitedBy.None? && r.invitedAt.None? && r.acceptedAt.None? && r.deniedAt.None?
    && r.inviteCount.None? && r.remindCount.None?
  }

  /**
   * `invite()`: bumps the invitation counter; only when a user is signed in does it also
   * record who invited and when. Nothing else about the row changes.
   */
  function Invite(r: ReviewerRow, signedIn: Option<Stamp>): (r': ReviewerRow)
    ensures r'.inviteCount == Some(CountOrZero(r.inviteCount) + 1)
    ensures signedIn.Some? ==> r'.invitedBy == Some(signedIn.value.userId) && r'.invitedAt == Some(signedIn.value.time)
    ensures signedIn.None? ==> r'.invitedBy == r.invitedBy && r'.invitedAt == r.invitedAt
    ensures r'.(invitedBy := r.invitedBy, invitedAt := r.invitedAt, inviteCount := r.inviteCount) == r
  {
    var stamped := if signedIn.Some? then r.(invitedBy := Some(signedIn.value.userId), invitedAt := Some(signedIn.value.time)) else r;
    stamped.(inviteCount := Some(CountOrZero(r.inviteCount) + 1))
  }

  /** `remind()`: bumps the reminder counter and changes nothing else. */
  function Remind(r: ReviewerRow): (r': ReviewerRow)
    ensures r'.remindCount == Some(CountOrZero(r.remindCount) + 1)
    ensures r'.(remindCount := r.remindCount) == r
  {
    r.(remindCount := Some(CountOrZero(r.remindCount) + 1))
  }

  /** `accept()`: stamps the acceptance unless the (reloaded) row was already denied. */
  function Accept(r: ReviewerRow, now: Time): (r': ReviewerRow)
    ensures r.deniedAt.None? ==> r'.acceptedAt == Some(now)
    ensures r.deniedAt.Some? ==> r' == r
    ensures r'.(acceptedAt := r.acceptedAt) == r
  {
    if r.deniedAt.None? then r.(acceptedAt := Some(now)) else r
  }

  /** `deny()`: stamps the refusal unless the (reloaded) row was already accepted. */
  function Deny(r: ReviewerRow, now: Time): (r': ReviewerRow)
    ensures r.acceptedAt.None? ==> r'.deniedAt == Some(now)
    ensures r.acceptedAt.Some? ==> r' == r
    ensures r'.(deniedAt := r.deniedAt) == r
  {
    if r.acceptedAt.None? then r.(deniedAt := Some(now)) else r
  }

  /** One call on the row. */
  datatype Op = InviteOp(signedIn: Option<Stamp>) | RemindOp | AcceptOp(now: Time) | DenyOp(now: Time)

  function Step(r: ReviewerRow, op: Op): ReviewerRow
  {
    match op
    case InviteOp(s) => Invite(r, s)
    case RemindOp => Remind(r)
    case AcceptOp(t) => Accept(r, t)
    case DenyOp(t) => Deny(r, t)
  }

  /** The row after a sequence of calls, first to last. */
  function Run(r: ReviewerRow, ops: seq<Op>): ReviewerRow
    decreases |ops|
  {
    if |ops| == 0 then r else Run(Step(r, ops[0]), ops[1..])
  }

  /** A reviewer has not both accepted and denied. */
  predicate NotBothAnswered(r: ReviewerRow)
  {
    !(r.acceptedAt.Some? && r.deniedAt.Some?)
  }

  lemma StepKeepsOneAnswer(r: ReviewerRow, op: Op)
    requires NotBothAnswered(r)
    ensures NotBothAnswered(Step(r, op))
  {
  }

  /** No sequence of calls leads to a row that is both accepted and denied. */
  lemma {:induction false} NeverBothAnswered(r: ReviewerRow, ops: seq<Op>)
    requires NotBothAnswered(r)
    ensures NotBothAnswered(Run(r, ops))
    decreases |ops|
  {
    if |ops| > 0 {
      StepKeepsOneAnswer(r, ops[0]);
      NeverBothAnswered(Step(r, ops[0]), ops[1..]);
    }
  }

  /** Once the first answer is recorded, the other answer can no longer be recorded. */
  lemma FirstAnswerWins(r: ReviewerRow, t: Time, u: Time)
    requires r.acceptedAt.None? && r.deniedAt.None?
    ensures Deny(Accept(r, t), u) == Accept(r, t)
    ensures Accept(Deny(r, t), u) == Deny(r, t)
  {
  }

  /** Accepting again re-stamps the acceptance: `accept()` is not idempotent on the timestamp. */
  lemma AcceptRestamps(r: ReviewerRow, t: Time, u: Time)
    requires r.deniedAt.None? && t != u
    ensures Accept(Accept(r, t), u).acceptedAt == Some(u)
    ensures Accept(Accept(r, t), u) != Accept(r, t)
  {
  }

  /** A sweep (no signed-in user) never moves the invitation time, however often it invites. */
  lemma {:induction false} SweepInvitesKeepInvitedAt(r: ReviewerRow, n: nat)
    ensures InviteTimes(r, n).invitedAt == r.invitedAt && InviteTimes(r, n).invitedBy == r.invitedBy
    ensures CountOrZero(InviteTimes(r, n).inviteCount) == CountOrZero(r.inviteCount) + n
  {
    if n > 0 {
      SweepInvitesKeepInvitedAt(r, n - 1);
    }
  }

  /** `n` invitations without a signed-in user. */
  function InviteTimes(r: ReviewerRow, n: nat): ReviewerRow
  {
    if n == 0 then r else Invite(InviteTimes(r, n - 1), None)
  }

  /**
   * The `review` relation: the reviews whose `reviewer_id` equals the row's, whatever
   * revision they belong to and whatever kind of reviewer the row points at (so a guest
   * row and a registered author that share a number share their reviews).
   */
  predicate HasReviewOn(r: ReviewerRow, reviews: seq<Review>, revisionId: nat)
  {
    exists i :: 0 <= i < |reviews| && reviews[i].reviewerId == r.reviewer.Key() && reviews[i].revisionId == revisionId
  }
}

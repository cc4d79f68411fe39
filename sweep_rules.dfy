/**
 * The row selection of the three console sweeps over `revision_reviewers`: the
 * re-invitation jobs `manuscript:invite-reviewer` (at most 2 invitations, 5-day steps)
 * and `manuscript:invite-reviewer-org` (6, 7-day steps), and the reminder job
 * `manuscript:remind-reviewer-org` (6 reminders, 7-day steps). "Today" is the midnight
 * that `CURDATE()` denotes.
 */
module SweepRules {
  import opened Wrappers
  import opened Records
  import opened ReviewerLifecycle

  /** How often a sweep may act on one row, and how many days it waits per earlier action. */
  datatype Cadence = Cadence(cap: nat, cooldownDays: nat)

  /** `manuscript:invite-reviewer`, the re-invitation job the scheduler runs. */
  const ScheduledReinvite: Cadence := Cadence(2, 5)

  /** `manuscript:invite-reviewer-org`. */
  const OrgReinvite: Cadence := Cadence(6, 7)

  /** `manuscript:remind-reviewer-org`. */
  const OrgRemind: Cadence := Cadence(6, 7)

  /** `DATE_ADD(since, INTERVAL IFNULL(count, 1) * days DAY) < CURDATE()`. */
  predicate CooledDown(since: Time, count: Option<nat>, days: nat, today: Time)
  {
    since + count.GetOr(1) * days * Day < today
  }

  /** Invited, and neither accepted nor denied. */
  predicate AwaitingAnswer(r: ReviewerRow)
  {
    r.invitedAt.Some? && r.acceptedAt.None? && r.deniedAt.None?
  }

  /**
   * The re-invitation query. `onSubmittedCurrent` says whether the row's revision is
   * the current revision of some manuscript and has status submitted.
   */
  predicate ReinviteDue(r: ReviewerRow, c: Cadence, today: Time, onSubmittedCurrent: bool)
    ensures ReinviteDue(r, c, today, onSubmittedCurrent) ==>
      r.invitedAt.Some? && r.invitedAt.value + CountOrZero(r.inviteCount) * c.cooldownDays * Day < today
    ensures r.acceptedAt.Some? || r.deniedAt.Some? || CountOrZero(r.inviteCount) >= c.cap || !onSubmittedCurrent
      ==> !ReinviteDue(r, c, today, onSubmittedCurrent)
  {
    AwaitingAnswer(r)
    && CountOrZero(r.inviteCount) < c.cap
    && CooledDown(r.invitedAt.value, r.inviteCount, c.cooldownDays, today)
    && onSubmittedCurrent
  }

  /**
   * The reminder query: accepted (a denial is not looked at), under the cap, cooled
   * down since the acceptance, on a submitted current revision, and `reviewed` (a
   * review by the same reviewer id on that revision) false.
   */
  predicate RemindDue(r: ReviewerRow, c: Cadence, today: Time, onSubmittedCurrent: bool, reviewed: bool)
    ensures RemindDue(r, c, today, onSubmittedCurrent, reviewed) ==>
      r.acceptedAt.Some? && r.acceptedAt.value + CountOrZero(r.remindCount) * c.cooldownDays * Day < today
    ensures reviewed || CountOrZero(r.remindCount) >= c.cap || !onSubmittedCurrent
      ==> !RemindDue(r, c, today, onSubmittedCurrent, reviewed)
  {
    r.acceptedAt.Some?
    && CountOrZero(r.remindCount) < c.cap
    && CooledDown(r.acceptedAt.value, r.remindCount, c.cooldownDays, today)
    && onSubmittedCurrent
    && !reviewed
  }

  /**
   * A re-invitation sent by a sweep keeps the row waiting with the same invitation time,
   * so the next one is due only once `count + 1` cooldown periods have passed since it.
   */
  lemma ReinviteWaitsLonger(r: ReviewerRow, c: Cadence, today: Time, later: Time, cur: bool)
    requires ReinviteDue(r, c, today, cur)
    requires ReinviteDue(Invite(r, None), c, later, cur)
    ensures AwaitingAnswer(Invite(r, None)) && Invite(r, None).invitedAt == r.invitedAt
    ensures r.invitedAt.value + (CountOrZero(r.inviteCount) + 1) * c.cooldownDays * Day < later
  {
  }

  /** The dates of successive runs of a sweep, and the row after each of them. */
  function ReinviteRuns(r: ReviewerRow, c: Cadence, todays: seq<Time>, cur: bool): ReviewerRow
    decreases |todays|
  {
    if |todays| == 0 then r
    else
      var next := if ReinviteDue(r, c, todays[0], cur) then Invite(r, None) else r;
      ReinviteRuns(next, c, todays[1..], cur)
  }

  /** How many of those runs re-invite the row. */
  function ReinviteCount(r: ReviewerRow, c: Cadence, todays: seq<Time>, cur: bool): nat
    decreases |todays|
  {
    if |todays| == 0 then 0
    else
      var due := ReinviteDue(r, c, todays[0], cur);
      var next := if due then Invite(r, None) else r;
      (if due then 1 else 0) + ReinviteCount(next, c, todays[1..], cur)
  }

  /** The room a counter leaves under a cap. */
  function Headroom(count: nat, cap: nat): nat
  {
    if count >= cap then 0 else cap - count
  }

  /**
   * Across any number of runs, a row is re-invited at most `cap - count` times, and its
   * counter grows by exactly the number of re-invitations.
   */
  lemma {:induction false} ReinviteBounded(r: ReviewerRow, c: Cadence, todays: seq<Time>, cur: bool)
    ensures ReinviteCount(r, c, todays, cur) <= Headroom(CountOrZero(r.inviteCount), c.cap)
    ensures CountOrZero(ReinviteRuns(r, c, todays, cur).inviteCount)
         == CountOrZero(r.inviteCount) + ReinviteCount(r, c, todays, cur)
    decreases |todays|
  {
    if |todays| > 0 {
      var next := if ReinviteDue(r, c, todays[0], cur) then Invite(r, None) else r;
      ReinviteBounded(next, c, todays[1..], cur);
    }
  }

  /** The scheduled job invites a row at most twice, and not at all once it has been invited twice. */
  lemma ScheduledReinviteAtMostTwice(r: ReviewerRow, todays: seq<Time>, cur: bool)
    ensures ReinviteCount(r, ScheduledReinvite, todays, cur) <= 2
    ensures CountOrZero(r.inviteCount) >= 2 ==> ReinviteCount(r, ScheduledReinvite, todays, cur) == 0
  {
    ReinviteBounded(r, ScheduledReinvite, todays, cur);
  }

  /** The row after successive runs of the reminder sweep. */
  function RemindRuns(r: ReviewerRow, c: Cadence, todays: seq<Time>, cur: bool, reviewed: bool): ReviewerRow
    decreases |todays|
  {
    if |todays| == 0 then r
    else
      var next := if RemindDue(r, c, todays[0], cur, reviewed) then Remind(r) else r;
      RemindRuns(next, c, todays[1..], cur, reviewed)
  }

  /**
   * Reminders never exceed the cap that was left, never touch the invitation counter or
   * the answers, and never pick a row a reviewer has denied when the row did not carry
   * both answers to begin with.
   */
  lemma {:induction false} RemindBounded(r: ReviewerRow, c: Cadence, todays: seq<Time>, cur: bool, reviewed: bool)
    ensures var r' := RemindRuns(r, c, todays, cur, reviewed);
      CountOrZero(r'.remindCount) <= CountOrZero(r.remindCount) + Headroom(CountOrZero(r.remindCount), c.cap)
      && r'.(remindCount := r.remindCount) == r
    decreases |todays|
  {
    if |todays| > 0 {
      var next := if RemindDue(r, c, todays[0], cur, reviewed) then Remind(r) else r;
      RemindBounded(next, c, todays[1..], cur, reviewed);
    }
  }

  /** A row picked by the reminder sweep was accepted, so (having never carried both answers) it was not denied. */
  lemma RemindPicksUndenied(r: ReviewerRow, c: Cadence, today: Time, cur: bool, reviewed: bool)
    requires NotBothAnswered(r) && RemindDue(r, c, today, cur, reviewed)
    ensures r.deniedAt.None? && r.acceptedAt.Some?
  {
  }
}

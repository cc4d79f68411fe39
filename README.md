# Editorial workflow engine of a manuscript-submission system

This project is a Dafny model of the editorial workflow at the centre of a journal's
manuscript-submission system (a Laravel application). Authors submit manuscripts. Each
manuscript has a chain of revisions, and the current revision carries a lifecycle status.
Under the role (section) a user works in, the user sees lists of manuscripts selected by a
list filter, and the actions offered on each row move the current revision through the
workflow:

- submission and assignment of an associate editor;
- invitation of reviewers, reviews, and the decision of the editor-in-chief;
- revision rounds, each creating a new revision;
- the post-acceptance production stages (similarity check, pagination, grammar check);
- the formatter and proofreader hand-offs, ending in publication.

Console jobs re-invite and remind reviewers who have not answered. A listener merges a guest
author into the author who registers with the same e-mail. A retention job clears the stored
files of rejected, withdrawn and deleted manuscripts.

The project is organised as follows:

- Enums (`StatusEnum`, `ActionEnum`, `FilterEnum`, `SectionEnum`, `EventEnum`, `TypeEnum`,
  `ReviewDecisionEnum`) are datatypes. Their value tables are proved distinct and
  round-tripping.
- The pure rules are functions with lemmas. They cover:
  - the action table and status mapping (`ActionTable`);
  - the list filters (`ListFilters`);
  - the reviewer-row state machine (`ReviewerLifecycle`) and the sweep selections (`SweepRules`);
  - the reviewer and author guards (`ReviewerAssignment`);
  - what each handler writes on a revision (`RevisionPipeline`);
  - the table-level effects of the jobs and the listener (`Housekeeping`);
  - codes and upload names (`Codes`), names and lookups (`People`), versioning invariants
    (`Versioning`), the dashboard (`Dashboard`), the request rules (`UpdateRequest`) and the
    client helpers (`Client`).
- The database is the class `Store.Database`. Its tables are sequences that the handler,
  listener and job methods update in place. Each method's postcondition ties the new tables
  to the rule functions above, and the loops of the source (sweeps, batch inserts,
  carry-forward, retention) are `while` loops with invariants.
- A row's id is its position in its table. Timestamps are integer seconds. "Now" and
  "today" (the midnight that `CURDATE()` denotes) are parameters.

## Where the code and the system's description differ

This model follows the code in each case below.

- **Re-invitation timing.** The described behaviour re-invites after "at least" five days and
  refreshes the invitation time. In the code the cooldown comparison is strict (`<
  CURDATE()`). Under the console jobs no user is signed in, so `invite()` leaves
  `invited_at` unchanged and only `invite_count` moves.
- **Retention window.** The retention job describes itself as removing files older than 30
  days. Its query instead selects manuscripts with a rejected, withdrawn or deleted revision
  last updated in the year 2024. The job then clears the files of every revision of those
  manuscripts.
- **Grammar check.** `sendForGrammarCheck` stores `false` in `grammar_updated` rather than
  clearing it.
- **Scheduled reminder.** The scheduler names `manuscript:remind-reviewer`, which is not the
  signature of the reminder job (`manuscript:remind-reviewer-org`). Only the jobs themselves
  are modelled.
- **Formatter list.** The formatter list combines the formatter selection with the list filter
  of the request. Under the default PENDING filter it is therefore empty.
- **Dashboard scoping.** The status counts are not restricted to the user's own manuscripts.

## Model

| member | source | states |
|---|---|---|
| StatusEnum.Status.LabelKey | app/Enums/Manuscript/Status.php:37-40 | the label key `__()` is given reads back, through the "manuscript.status." group, as this very case, so each case has its own key |
| StatusEnum.LabelKeysDistinct | app/Enums/Manuscript/Status.php:37-40 | two statuses with the same label key are the same status |
| StatusEnum.Status.ToArray | app/Enums/Manuscript/Status.php:42-48 | `toArray` has exactly the keys "value" and "label"; the value parses back to this status, and the label is the translation of its label key |
| StatusEnum.Cases | app/Enums/Manuscript/Status.php:9-36 | there are fifteen status cases |
| StatusEnum.ValuesMeaning | app/Enums/Manuscript/Status.php:50-53 | a string is listed by `values()` exactly when it is the value of some status, and each entry parses back to the status declared at the same position |
| StatusEnum.ValuesListedOnce | app/Enums/Manuscript/Status.php:50-53 | no value is listed twice by `values()` |
| StatusEnum.CasesComplete | app/Enums/Manuscript/Status.php:9-36 | every status sits in the case list at its own declaration position |
| StatusEnum.FromValueRoundTrip | app/Enums/Manuscript/Status.php:9-36 | looking a status up by its stored value gives back that status |
| StatusEnum.ValuesDistinct | app/Enums/Manuscript/Status.php:9-36 | the fifteen backing strings are pairwise distinct |
| ActionEnum.Action.LabelKey | app/Enums/Manuscript/Action.php:106-109 | the label key `__()` is given reads back, through the "manuscript.action." group, as this very case, so each case has its own key |
| ActionEnum.Action.ToArray | app/Enums/Manuscript/Action.php:111-117 | `toArray` has exactly the keys "value" and "label"; the value parses back to this action, and the label is the translation of its label key |
| ActionEnum.LabelKeysDistinct | app/Enums/Manuscript/Action.php:106-109 | two actions with the same label key are the same action |
| ActionEnum.Cases | app/Enums/Manuscript/Action.php:9-104 | there are forty-eight action cases |
| ActionEnum.ValuesMeaning | app/Enums/Manuscript/Action.php:119-122 | a string is listed by `values()` exactly when it is the value of some action, and each entry parses back to the action declared at the same position |
| ActionEnum.ValuesListedOnce | app/Enums/Manuscript/Action.php:119-122 | no value is listed twice by `values()` |
| ActionEnum.CasesComplete | app/Enums/Manuscript/Action.php:9-104 | every action sits in the case list at its own declaration position |
| ActionEnum.FromValueRoundTrip | app/Enums/Manuscript/Action.php:9-104 | looking an action up by its stored value gives back that action |
| ActionEnum.ValuesDistinct | app/Enums/Manuscript/Action.php:9-104 | the backing strings of the actions are pairwise distinct |
| ActionEnum.GrammarUpdatedValue | app/Enums/Manuscript/Action.php:90 | GRAMMAR_UPDATED is stored as 'grammar-checked', and no action is stored as 'grammar-updated' |
| ActionEnum.NoReadyArticleAction | app/Enums/Manuscript/Action.php:52 | no action is backed by 'ready-article' (that case is commented out) |
| ActionEnum.RevisionActionsNameStatuses | app/Enums/Manuscript/Action.php:92-94 | MINOR_REVISION and MAJOR_REVISION carry the strings of the two revision-required statuses |
| FilterEnum.Cases | app/Enums/Manuscript/Filter.php:7-53 | there are twenty-five list filters |
| FilterEnum.ValuesMeaning | app/Enums/Manuscript/Filter.php:55-58 | a string is listed by `values()` exactly when it is the value of some filter, and each entry parses back to the filter declared at the same position |
| FilterEnum.ValuesListedOnce | app/Enums/Manuscript/Filter.php:55-58 | no value is listed twice by `values()` |
| FilterEnum.CasesComplete | app/Enums/Manuscript/Filter.php:7-53 | every filter sits in the case list at its own declaration position |
| FilterEnum.FromValueRoundTrip | app/Enums/Manuscript/Filter.php:7-53 | looking a filter up by its stored value gives back that filter |
| FilterEnum.ValuesDistinct | app/Enums/Manuscript/Filter.php:7-53 | the backing strings of the filters are pairwise distinct |
| FilterEnum.StatusHasFilter | app/Enums/Manuscript/Filter.php:7-53 | a status value is also a filter value exactly when the status is not one of the two revision-required ones, and then the filter carries the same string |
| FilterEnum.ViewsHaveNoStatus | app/Enums/Manuscript/Filter.php:27-49 | a filter names no status exactly when it is one of the workflow views INVITE … WITH_EIC or the stage views UNDER_SIMILARITY_CHECK … READY_FOR_ACCEPT |
| EventEnum.Cases | app/Enums/Manuscript/Event.php:7 | there is one event kind |
| EventEnum.ValuesMeaning | app/Enums/Manuscript/Event.php:9-12 | a string is listed by `values()` exactly when it is the value of some event, and each entry parses back to the event declared at the same position |
| EventEnum.CasesComplete | app/Enums/Manuscript/Event.php:7 | the single case sits at its declaration position |
| EventEnum.FromValueRoundTrip | app/Enums/Manuscript/Event.php:7 | looking the event up by 'status_updated' gives it back |
| EventEnum.ValuesDistinct | app/Enums/Manuscript/Event.php:7 | equal backing strings mean equal events |
| TypeEnum.Cases | app/Enums/Manuscript/Type.php:9-13 | there are three manuscript types |
| TypeEnum.ValuesMeaning | app/Enums/Manuscript/Type.php:23-26 | a string is listed by `values()` exactly when it is the value of some type, and each entry parses back to the type declared at the same position |
| TypeEnum.ValuesListedOnce | app/Enums/Manuscript/Type.php:23-26 | no value is listed twice by `values()` |
| TypeEnum.CasesComplete | app/Enums/Manuscript/Type.php:9-13 | every type sits at its declaration position |
| TypeEnum.FromValueRoundTrip | app/Enums/Manuscript/Type.php:9-13 | looking a type up by its stored value gives it back |
| TypeEnum.ValuesDistinct | app/Enums/Manuscript/Type.php:9-13 | the type strings are pairwise distinct |
| ReviewDecisionEnum.Cases | app/Enums/Manuscript/ReviewDecision.php:9-15 | there are four review decisions |
| ReviewDecisionEnum.ValuesMeaning | app/Enums/Manuscript/ReviewDecision.php:25-28 | a string is listed by `values()` exactly when it is the value of some decision, and each entry parses back to the decision declared at the same position |
| ReviewDecisionEnum.ValuesListedOnce | app/Enums/Manuscript/ReviewDecision.php:25-28 | no value is listed twice by `values()` |
| ReviewDecisionEnum.CasesComplete | app/Enums/Manuscript/ReviewDecision.php:9-15 | every decision sits at its declaration position |
| ReviewDecisionEnum.FromValueRoundTrip | app/Enums/Manuscript/ReviewDecision.php:9-15 | looking a decision up by its stored value gives it back |
| ReviewDecisionEnum.ValuesDistinct | app/Enums/Manuscript/ReviewDecision.php:9-15 | the decision strings are pairwise distinct |
| ReviewDecisionEnum.RevisionVerdictsNameStatuses | app/Enums/Manuscript/ReviewDecision.php:11-13 | the minor and major revision verdicts carry the strings of the two revision-required statuses |
| SectionEnum.Section.LabelKey | app/Enums/Section.php:29-32 | the label key `__()` is given reads back, through the "section." group, as this very case, so each case has its own key |
| SectionEnum.Section.ToArray | app/Enums/Section.php:34-40 | `toArray` has exactly the keys "value" and "label"; the value parses back to this section, and the label is the translation of its label key |
| SectionEnum.LabelKeysDistinct | app/Enums/Section.php:29-32 | two sections with the same label key are the same section |
| SectionEnum.Cases | app/Enums/Section.php:12-27 | there are nine sections |
| SectionEnum.ValuesMeaning | app/Enums/Section.php:42-45 | a string is listed by `values()` exactly when it is the value of some section, and each entry parses back to the section declared at the same position |
| SectionEnum.ValuesListedOnce | app/Enums/Section.php:42-45 | no value is listed twice by `values()` |
| SectionEnum.CasesComplete | app/Enums/Section.php:12-27 | every section sits at its declaration position |
| SectionEnum.FromValueRoundTrip | app/Enums/Section.php:12-27 | looking a section up by its stored value gives it back |
| SectionEnum.ValuesDistinct | app/Enums/Section.php:12-27 | the section strings are pairwise distinct |
| SectionEnum.MenuTitles | app/Enums/Section.php:63-343 | each section's list entries have exactly one title per list filter |
| SectionEnum.LeadingItemsOpenNoList | app/Enums/Section.php:50-68 | the admin links and the author's "Submit New Manuscript" entry open no manuscript list |
| SectionEnum.Items | app/Enums/Section.php:47-347 | `items()` starts with exactly the section's leading entries, and then has one entry per list filter with its title, routed to the section's list route with that filter |
| SectionEnum.OpensListMeaning | app/Enums/Section.php:47-347 | a section's menu has an entry opening list f exactly when f is one of its list filters; the leading entries open no list |
| SectionEnum.ReviewerMenu | app/Enums/Section.php:131-142 | the reviewer menu offers exactly REVIEW and REVIEWED |
| SectionEnum.ReviewerMenuItems | app/Enums/Section.php:131-142 | the reviewer's menu entries open exactly the REVIEW and REVIEWED lists |
| SectionEnum.EpmMenu | app/Enums/Section.php:311-327 | the production-manager menu offers exactly the similarity, pagination and grammar stage lists |
| SectionEnum.EpmMenuItems | app/Enums/Section.php:311-327 | the production-manager menu has three entries, which open exactly the three stage lists |
| SectionEnum.EditorInChiefMenuItems | app/Enums/Section.php:207-309 | the editor-in-chief menu has twenty entries, which open every list except the five reviewer-side views |
| SectionEnum.EditorInChiefMenu | app/Enums/Section.php:207-309 | the editor-in-chief menu has twenty entries from "New Submission" (SUBMITTED) to "Deleted Manuscripts" (DELETED), and offers a filter exactly when it is not one of the five reviewer-side views |
| SectionEnum.EditorInChiefMenuOmits | app/Enums/Section.php:207-309 | INVITE, INVITED, REVIEW, REVIEWED and UNDER_REVIEW are absent from the editor-in-chief menu |
| SectionEnum.HandOffMenus | app/Enums/Section.php:329-343 | formatter and proofreader each get one entry routed to their own controller's index |
| SectionEnum.MenuWithoutLists | app/Enums/Section.php:345 | READY_ARTICLE falls to the default arm and gets an empty menu; the admin menu has its two links and no list |
| ActionTable.ListActions | app/Http/Controllers/ManuscriptController.php:294-416 | the action list of a row always starts with VIEW |
| ActionTable.AuthorActions | app/Http/Controllers/ManuscriptController.php:298-329 | an author is offered VIEW, EDIT exactly under PENDING, REVISE exactly under UNDER_REVISION, and nothing else |
| ActionTable.ReviewerActions | app/Http/Controllers/ManuscriptController.php:336-338 | a reviewer is offered VIEW and REVIEW under the REVIEW list and VIEW alone elsewhere |
| ActionTable.EpmActions | app/Http/Controllers/ManuscriptController.php:401-411 | the production manager is offered VIEW plus exactly the one update action of each stage list |
| ActionTable.AssociateEditorActions | app/Http/Controllers/ManuscriptController.php:340-350 | the associate editor is offered INVITE_REVIEWER under INVITE, INVITE_MORE_REVIEWER under INVITED and SEND_TO_EIC under REVIEWED, after VIEW |
| ActionTable.ViewOnlySections | app/Http/Controllers/ManuscriptController.php:294-416 | admin, formatter, proofreader and ready-article users are offered VIEW only |
| ActionTable.EditorInChiefActions | app/Http/Controllers/ManuscriptController.php:305-311 | the editor-in-chief's list starts VIEW, EDIT, and offers UPDATE_COMMENT_REPLY exactly when the manuscript has more than one revision and the filter is not one of the nine post-acceptance lists |
| ActionTable.EditorInChiefWorkflow | app/Http/Controllers/ManuscriptController.php:294-416 | apart from view, edit and reply, the editor-in-chief is offered exactly the actions of the block for the selected list |
| ActionTable.EditorInChiefAccept | app/Http/Controllers/ManuscriptController.php:348-376 | ACCEPT is offered exactly on the submitted, with-EIC, conditionally-accepted and ready-for-accept lists |
| ActionTable.EditorInChiefConditionallyAccept | app/Http/Controllers/ManuscriptController.php:348-363 | CONDITIONALLY_ACCEPT is offered exactly on the submitted and with-EIC lists |
| ActionTable.EditorInChiefMinorRevision | app/Http/Controllers/ManuscriptController.php:356-363 | MINOR_REVISION is offered exactly on the with-EIC list |
| ActionTable.EditorInChiefMajorRevision | app/Http/Controllers/ManuscriptController.php:356-363 | MAJOR_REVISION is offered exactly on the with-EIC list |
| ActionTable.EditorInChiefReject | app/Http/Controllers/ManuscriptController.php:348-401 | REJECT is offered exactly on the submitted, with-EIC, conditionally-accepted, ready-for-accept, accepted, production and publication lists |
| ActionTable.EditorInChiefWithdraw | app/Http/Controllers/ManuscriptController.php:318-401 | WITHDRAW is offered exactly on the REJECT lists and on the with-AE and under-revision lists |
| ActionTable.EditorInChiefDelete | app/Http/Controllers/ManuscriptController.php:314-316 | DELETE is offered exactly on the pending list |
| ActionTable.EditorInChiefAssignEditor | app/Http/Controllers/ManuscriptController.php:318-354 | ASSIGN_ASSOCIATE_EDITOR is offered exactly on the submitted and with-AE lists |
| ActionTable.EditorInChiefRemindAuthor | app/Http/Controllers/ManuscriptController.php:327-330 | REMIND_AUTHOR is offered exactly on the under-revision list |
| ActionTable.EditorInChiefSimilarityCheck | app/Http/Controllers/ManuscriptController.php:365-370 | SEND_FOR_SIMILARITY_CHECK is offered exactly on the conditionally-accepted list |
| ActionTable.EditorInChiefFormatter | app/Http/Controllers/ManuscriptController.php:378-382 | FORMATTER is offered exactly on the accepted list |
| ActionTable.EditorInChiefProofreader | app/Http/Controllers/ManuscriptController.php:387-389 | PROOFREADER is offered exactly on the proofreader list |
| ActionTable.EditorInChiefPublication | app/Http/Controllers/ManuscriptController.php:383-395 | PUBLICATION is offered exactly on the ready-article and production lists |
| ActionTable.EditorInChiefPublish | app/Http/Controllers/ManuscriptController.php:397-401 | PUBLISH is offered exactly on the publication list |
| ActionTable.StatusTargetsInjective | app/Http/Controllers/ManuscriptController.php:574-591 | no two of the ten status-changing actions lead to the same status |
| ActionTable.StatusActionsDispatch | app/Http/Controllers/ManuscriptController.php:574-591 | an action is posted to `updateStatus` exactly when it has a status target, with that target, which is never pending, submitted, revision-required or ready-article |
| ActionTable.RevisionActionsDispatch | app/Http/Controllers/ManuscriptController.php:560-567 | only MINOR_REVISION and MAJOR_REVISION go to `revisionRequired`, each with the revision-required status of the same string |
| ActionTable.PostNotFound | app/Http/Controllers/ManuscriptController.php:460-650 | posting VIEW, INVITE_MORE_REVIEWER, ACCEPT_REVIEW_INVITE or DENY_REVIEW_INVITE, and only those, falls to the 404 arm |
| ActionTable.PostHandler | app/Http/Controllers/ManuscriptController.php:460-649 | creating and editing, and nothing else, are handled by `storeUpdate` |
| ActionTable.StatusChangesOnlyForEditorInChief | app/Http/Controllers/ManuscriptController.php:294-416 | whenever a row offers an action that changes the status or asks for a revision, the user is the editor-in-chief |
| ActionTable.ActionsFollowMenu | app/Http/Controllers/ManuscriptController.php:294-416 | every action other than VIEW, EDIT and UPDATE_COMMENT_REPLY is offered only under a list that the section's own menu shows |
| ListFilters.RoleScoping | app/Models/Manuscript.php:153-163 | an author's list holds only manuscripts they own, an associate editor's only those whose current revision names them, and every other section's list is the filter alone |
| ListFilters.FilterStatus | app/Models/Manuscript.php:234-310 | the status a plain status list selects carries the same string as the filter |
| ListFilters.FilterScope | app/Models/Manuscript.php:165-310 | every list but REVIEW and REVIEWED needs a current revision, and a deleted manuscript is on no status list but DELETED |
| ListFilters.PlainStatusFilters | app/Models/Manuscript.php:234-310 | PENDING, WITHDRAWN, DELETED, REJECTED, ACCEPTED, PRODUCTION, PUBLICATION, PUBLISHED, FORMATTER, PROOFREADER and READY_ARTICLE each select exactly the manuscripts whose current revision has that status |
| ListFilters.UnderRevisionFilter | app/Models/Manuscript.php:216 | UNDER_REVISION selects exactly the current revisions awaiting a minor or a major revision |
| ListFilters.HandOverListsDisjoint | app/Models/Manuscript.php:218-251 | WITH_AE and WITH_EIC never share a manuscript; for the editor-in-chief SUBMITTED and WITH_AE are disjoint and together cover every submitted manuscript not yet passed on |
| ListFilters.InvitationSplit | app/Models/Manuscript.php:165-172 | INVITE and UNDER_REVIEW partition the submitted manuscripts by whether any reviewer of the current revision has been invited; an author's SUBMITTED list equals the INVITE list |
| ListFilters.AcceptanceStageLists | app/Models/Manuscript.php:270-298 | the five acceptance-stage lists all require status conditionally-accepted; the plain and similarity lists are disjoint, and UNDER_GRAMMAR_CHECK and READY_FOR_ACCEPT split the grammar-check manuscripts by whether a result is recorded |
| ListFilters.ReviewedForAssociateEditor | app/Models/Manuscript.php:204-211 | for an associate editor REVIEWED means submitted and, while not passed on, at least `minimum_reviews` reviews on the current revision; once comments to the editor-in-chief exist the review count reads as 0, so such a manuscript stays only when the minimum is 0 |
| ListFilters.ReviewStatesExclusive | app/Models/Revision.php:178-204 | review pending and review completed never hold together for one reviewer and one revision |
| ListFilters.ReviewMovesToCompleted | app/Models/Revision.php:178-204 | adding the reviewer's review makes "completed" hold and "pending" fail |
| ListFilters.FormatterList | app/Http/Controllers/FormatterController.php:72-112 | under the FORMATTER filter the formatter's list is exactly "linked as a revision author and in formatter status"; under any other plain status filter (such as the default PENDING) it is empty |
| ReviewerLifecycle.NewRow | app/Models/RevisionReviewer.php:35-40 | a new row takes the given section and creator when they are set (a creator id of 0 counts as unset), the signed-in user's otherwise, and starts with no invitation, answer or counter |
| ReviewerLifecycle.Invite | app/Models/RevisionReviewer.php:43-54 | `invite()` raises the invitation count by one with a missing count read as 0, stamps inviter and time only when a user is signed in, and changes nothing else |
| ReviewerLifecycle.Remind | app/Models/RevisionReviewer.php:56-62 | `remind()` raises the reminder count by one (missing read as 0) and changes nothing else |
| ReviewerLifecycle.Accept | app/Models/RevisionReviewer.php:64-71 | `accept()` stamps `accepted_at` when the reloaded row is not denied, leaves the row as it is otherwise, and touches no other field |
| ReviewerLifecycle.Deny | app/Models/RevisionReviewer.php:73-80 | `deny()` stamps `denied_at` when the reloaded row is not accepted, leaves the row as it is otherwise, and touches no other field |
| ReviewerLifecycle.StepKeepsOneAnswer | app/Models/RevisionReviewer.php:43-80 | no single invite, remind, accept or deny makes a row both accepted and denied |
| ReviewerLifecycle.NeverBothAnswered | app/Models/RevisionReviewer.php:64-80 | from a row not both accepted and denied, no sequence of calls leads to one that is |
| ReviewerLifecycle.FirstAnswerWins | app/Models/RevisionReviewer.php:64-80 | on an unanswered row, a deny after an accept, or an accept after a deny, changes nothing |
| ReviewerLifecycle.AcceptRestamps | app/Models/RevisionReviewer.php:66-69 | accepting twice at different times re-stamps `accepted_at`, so `accept()` is not idempotent |
| ReviewerLifecycle.SweepInvitesKeepInvitedAt | app/Models/RevisionReviewer.php:45-51 | n invitations without a signed-in user leave `invited_at` and `invited_by` as they were and raise the count by exactly n |
| SweepRules.ReinviteWaitsLonger | app/Console/Commands/InviteRevisionReviewer.php:34-44 | after a sweep re-invites a row it is still awaiting an answer with the same `invited_at`, so the next re-invitation comes only once count + 1 cooldown periods have passed since that time |
| SweepRules.ReinviteDue | app/Console/Commands/Manuscript/InviteRevisionReviewer.php:32-41 | a row is re-invited only while still unanswered, under the cap, on a submitted current revision, and invited at least `count` cooldown periods before today |
| SweepRules.RemindDue | app/Console/Commands/Manuscript/RemindRevisionReviewer.php:32-42 | a row is reminded only once accepted, under the cap, on a submitted current revision, without a review on it, and accepted at least `count` cooldown periods before today |
| SweepRules.ReinviteBounded | app/Console/Commands/Manuscript/InviteRevisionReviewer.php:32-48 | across any sequence of runs a row is re-invited at most cap − initial count times (null as 0), and its counter grows by exactly the number of re-invitations |
| SweepRules.ScheduledReinviteAtMostTwice | app/Console/Commands/InviteRevisionReviewer.php:37-44 | the scheduled cap-2 job re-invites a row at most twice over all runs, and never once it has been invited twice |
| SweepRules.RemindBounded | app/Console/Commands/Manuscript/RemindRevisionReviewer.php:32-48 | across any sequence of runs the reminder count stays within the cap left, and no field other than `remind_count` changes (`invite_count` and the answers stay) |
| SweepRules.RemindPicksUndenied | app/Console/Commands/Manuscript/RemindRevisionReviewer.php:34 | the reminder query checks only `accepted_at`; a row it picks was accepted and, never having carried both answers, is not denied |
| Housekeeping.SweepNotice | app/Console/Commands/Manuscript/InviteRevisionReviewer.php:43-51 | each row a sweep picks mails the row's reviewer: an invitation from the re-invite sweep, a reminder from the remind sweep |
| Housekeeping.Due | app/Console/Commands/Manuscript/RemindRevisionReviewer.php:32-42 | a picked row exists and is on the submitted current revision of some manuscript; the reminder sweep never picks a row whose reviewer has reviewed that revision |
| Housekeeping.SweptRow | app/Console/Commands/Manuscript/InviteRevisionReviewer.php:43-45 | a row the sweep does not pick is unchanged; a picked row changes only in its invitation (or reminder) counter, which goes up by one |
| Housekeeping.SweepNoticesMatchDue | app/Console/Commands/Manuscript/RemindRevisionReviewer.php:32-50 | the mails of a sweep are exactly the mails of the rows its query picks: every picked row gets one and no mail comes from a row not picked |
| Housekeeping.SweepNoticeCount | app/Console/Commands/Manuscript/InviteRevisionReviewer.php:32-51 | a sweep sends exactly one mail per picked row, so never more mails than reviewer rows |
| Housekeeping.SweptRowIsOneRun | app/Console/Commands/Manuscript/InviteRevisionReviewer.php:32-51 | the table-wide sweep applies to each row exactly one run of the per-row rule, so the per-row caps hold for the table |
| Housekeeping.SweepKeepsAnswers | app/Console/Commands/Manuscript/RemindRevisionReviewer.php:43-50 | a sweep never deletes a row nor changes its `accepted_at` or `denied_at`, so a row never carries both answers after it |
| Housekeeping.RepointMeaning | app/Listeners/UpdateAuthorForeignKeyReference.php:25-39 | after the merge no reviewer or author row refers to the guest, every row that did refers to the registered author with all else kept, and every other row is untouched |
| Housekeeping.RepointKeepsAnswers | app/Listeners/UpdateAuthorForeignKeyReference.php:25-31 | re-pointing reviewer rows keeps every row's answers |
| Housekeeping.RepointIdempotent | app/Listeners/UpdateAuthorForeignKeyReference.php:25-39 | merging a second time changes nothing |
| Housekeeping.Cleared | app/Console/Commands/DeleteOldManuscriptFiles_copyNew.php:60-63 | a cleared revision has no source and no anonymous file and is otherwise the revision it was (its `updated_at` included) |
| Housekeeping.ClearingKeepsTargets | app/Console/Commands/DeleteOldManuscriptFiles_copyNew.php:22-27 | clearing files changes no status and no update time, so exactly the same manuscripts qualify afterwards |
| Housekeeping.ClearingIdempotent | app/Console/Commands/DeleteOldManuscriptFiles_copyNew.php:35-97 | a second run of the retention sweep clears nothing more |
| Housekeeping.ClearingSparesOthers | app/Console/Commands/DeleteOldManuscriptFiles_copyNew.php:35-37 | the revisions and the copyright form of a manuscript with no qualifying revision are kept unchanged |
| Housekeeping.Present | app/Console/Commands/DeleteOldManuscriptFiles_copyNew.php:46 | a column yields its path for deletion exactly when it holds a PHP-truthy path |
| Housekeeping.RevisionPathsMeaning | app/Console/Commands/DeleteOldManuscriptFiles_copyNew.php:39-58 | the first loop deletes a path exactly when it is truthy and is the source or anonymous file of some revision of a targeted manuscript |
| Housekeeping.CopyrightPathsMeaning | app/Console/Commands/DeleteOldManuscriptFiles_copyNew.php:74-88 | the second loop deletes a path exactly when it is truthy and is the copyright form of a targeted manuscript |
| Housekeeping.NoTargets | app/Console/Commands/DeleteOldManuscriptFiles_copyNew.php:29-32 | with no revision rejected, withdrawn or deleted in 2024 the sweep returns early: no row changes and no file is deleted |
| Store.StatusNotices | app/Http/Controllers/ManuscriptController.php:1679-1697 | a status change notifies the corresponding author exactly when the new status is withdrawn, rejected, conditionally accepted, accepted or published, with one notice naming that status |
| Store.NotifiesAuthor | app/Http/Controllers/ManuscriptController.php:1679-1697 | `updateStatus` never tells the author about pending, submitted, deleted or revision-required statuses |
| Store.Responder | app/Http/Controllers/ManuscriptController.php:1444-1451 | a registered responder answers only when the author exists and is not deleted; any registered answer is such an author; a trashed guest answers through the first visible author with its e-mail |
| Store.FirstAnswerable | app/Http/Controllers/ManuscriptController.php:1453-1459 | the row found is the first of the current revision for the responder that is invited and answered neither way; none is found exactly when there is no such row |
| Store.CarriedStep | app/Http/Controllers/ManuscriptController.php:1633-1649 | taking one more reviewer row of the old revision extends the copies by that row's copy exactly when its reviewer reviewed the old revision |
| Store.AppendFreshKeepsConsistent | app/Http/Controllers/ManuscriptController.php:1640-1649 | appending fresh, unanswered rows keeps every row carrying at most one answer |
| Store.RemoveMore | app/Console/Commands/DeleteOldManuscriptFiles_copyNew.php:45-58 | deleting one batch of paths after another, with failing deletes skipped, deletes their union less the failing ones |
| Store.Database.CurrentOf | app/Models/Manuscript.php:326-340 | the current revision belongs to the manuscript, is the one the manuscript points at, and has the highest index among its revisions |
| Store.Database.CreateEvent | app/Models/Revision.php:255-260 | exactly one event row, stamped with the signed-in user, is appended to the log and nothing else changes |
| Store.Database.SaveRevision | database/migrations/2023_04_15_000012_create_revisions_table.php:38-40 | saving a revision row replaces it with the edited row, stamped with a new `updated_at` when anything changed, and keeps every manuscript pointing at its latest revision |
| Store.Database.SaveCurrent | app/Http/Controllers/ManuscriptController.php:1670-1672 | saving the current revision changes that row only, and the database stays valid |
| Store.Database.UpdateStatus | app/Http/Controllers/ManuscriptController.php:1670-1704 | the current revision takes the status, one status event is logged on it, the author is told for the five notifying statuses, and nothing else changes |
| Store.Database.RevisionRequired | app/Http/Controllers/ManuscriptController.php:1563-1576 | the current revision becomes minor or major revision and the author is asked to revise; unlike `updateStatus`, no event is logged |
| Store.Database.Submit | app/Http/Controllers/ManuscriptController.php:1159-1182 | the current revision becomes submitted, one status event is logged and the author is told |
| Store.Database.UpdateStage | app/Http/Controllers/ManuscriptController.php:1706-1733 | an acceptance-stage handler changes the current revision's stage flags and results, keeps its status, stores only the stage's upload and logs nothing |
| Store.Database.AssignAssociateEditor | app/Http/Controllers/ManuscriptController.php:1184-1201 | the associate editor is set on the current revision and notified |
| Store.Database.UpdateInvite | app/Http/Controllers/ManuscriptController.php:1352-1362 | only the current revision's minimum number of reviews changes |
| Store.Database.SendToEic | app/Http/Controllers/ManuscriptController.php:1551-1561 | only the current revision's comments to the editor in chief change |
| Store.Database.RemindAuthor | app/Http/Controllers/ManuscriptController.php:1430-1440 | the corresponding author receives a revision reminder and no table changes |
| Store.Database.HandOff | app/Http/Controllers/ManuscriptController.php:1735-1784 | the current revision moves to the formatter or proofreader stage and is saved before the person is looked up; when the e-mail matches nobody the link fails but the status change stays |
| Store.Database.FormatPaper | app/Http/Controllers/FormatterController.php:145-175 | both papers, and the other file when given, are stored, the current revision goes to the proofreader and nothing is logged |
| Store.Database.ProofreadPaper | app/Http/Controllers/ProofreaderController.php:144-160 | the proofread paper is stored, the current revision becomes ready-article and nothing is logged |
| Store.Database.UpdateCommentReply | app/Http/Controllers/ManuscriptController.php:1856-1879 | the reply is saved on the revision one index below the current one; when the current revision is the first there is none and nothing changes |
| Store.Database.InviteRow | app/Models/RevisionReviewer.php:43-54 | one reviewer row is invited in place and every row still carries at most one answer |
| Store.Database.RemindRow | app/Models/RevisionReviewer.php:56-62 | one reviewer row is reminded in place, keeping the invariant |
| Store.Database.AcceptRow | app/Models/RevisionReviewer.php:64-71 | one reviewer row is accepted in place, keeping the invariant |
| Store.Database.DenyRow | app/Models/RevisionReviewer.php:73-80 | one reviewer row is denied in place, keeping the invariant |
| Store.Database.NudgeReviewer | app/Http/Controllers/ManuscriptController.php:1364-1428 | the action applies only to a reviewer row of the current revision, otherwise the request fails and nothing changes; an invitation stamps the user and the time, a reminder only counts, and the reviewer gets the matching mail |
| Store.Database.RespondReviewInvite | app/Http/Controllers/ManuscriptController.php:1442-1475 | the answer applies to the first answerable row for the responder and ends it accepted or denied at that moment; a denial also mails the reviewer; with no responder or no such row nothing changes |
| Store.Database.AddRevisionReviewer | app/Http/Controllers/ManuscriptController.php:857-898 | a rejected e-mail changes nothing and reports the check's error; an accepted one appends exactly one fresh row on the current revision and answers with its id |
| Store.Database.AddRevisionReviewers | app/Http/Controllers/ManuscriptController.php:1881-1926 | as written: the rows and the error are those of `ReviewerAssignment.BatchAsWritten` on the tables as they stood, which checks every entry against the rows loaded before the loop; entries added before a rejection stay |
| Store.Database.RemoveRevisionReviewer | app/Http/Controllers/ManuscriptController.php:900-918 | only a row of the current revision can be removed; it is deleted for good, and a guest the user created that nothing refers to any more is deleted with it |
| Store.Database.CarryForward | app/Http/Controllers/ManuscriptController.php:1633-1649 | a fresh copy of each reviewer row of the old revision whose reviewer reviewed it is appended in row order, and every row still carries at most one answer |
| Store.Database.OpenRevision | app/Http/Controllers/ManuscriptController.php:1651-1653 | the new revision is appended and the manuscript points at it, keeping every manuscript on its latest revision |
| Store.Database.Resubmit | app/Http/Controllers/ManuscriptController.php:1587-1631 | the reply and its file are saved on the old revision, and a submitted revision with the next index and the new texts and files becomes current |
| Store.Database.UpdateRevise | app/Http/Controllers/ManuscriptController.php:1585-1668 | the whole resubmission: reply saved, next revision current and submitted, reviewers who reviewed copied onto it, one status event logged on it, the author told, and nothing else changed |
| Store.NextRevision | app/Http/Controllers/ManuscriptController.php:1598-1630 | the new revision belongs to the same manuscript, has the next index, is submitted, holds the new title and both new files, and starts without an associate editor, a reply, or any stage result |
| Store.Database.RunSweep | app/Console/Commands/Manuscript/InviteRevisionReviewer.php:30-52 | after a sweep every reviewer row is the row the per-row rule gives for the tables as they stood, the mails are exactly those of the picked rows in row order, and nothing else changes |
| Store.Database.SweepRow | app/Console/Commands/Manuscript/RemindRevisionReviewer.php:43-50 | one picked row is re-invited or reminded and mailed; a row not picked is untouched |
| Store.Database.MergeGuest | app/Listeners/UpdateAuthorForeignKeyReference.php:15-42 | with a verified author and a live guest with its e-mail, every reviewer and author row of the guest is pointed at the author, nothing refers to the guest any more and the guest is soft-deleted; otherwise nothing changes |
| Store.Database.DeleteIfPresent | app/Console/Commands/DeleteOldManuscriptFiles_copyNew.php:46-56 | a truthy path is removed from the disk unless its delete fails; no table changes |
| Store.Database.RetentionSweep | app/Console/Commands/DeleteOldManuscriptFiles_copyNew.php:15-101 | a real run clears the files of every revision and the copyright form of every targeted manuscript, in the tables and on disk except for failing deletes; a dry run or a run with no target changes nothing |
| Store.Database.ClearRevisionFiles | app/Console/Commands/DeleteOldManuscriptFiles_copyNew.php:35-67 | the first loop leaves the revisions cleared and deletes exactly their truthy stored paths that do not fail |
| Store.Database.ClearRevision | app/Console/Commands/DeleteOldManuscriptFiles_copyNew.php:39-66 | one more revision is cleared and its paths deleted when its manuscript is targeted |
| Store.Database.ClearCopyrightForms | app/Console/Commands/DeleteOldManuscriptFiles_copyNew.php:70-97 | the second loop leaves the targeted manuscripts without copyright form and deletes exactly those forms that do not fail |
| Store.Database.ClearCopyrightForm | app/Console/Commands/DeleteOldManuscriptFiles_copyNew.php:74-96 | one more manuscript's copyright form is deleted and cleared when it is targeted |
| ReviewerAssignment.CheckReviewer | app/Http/Controllers/ManuscriptController.php:857-891 | an accepted reviewer is the person the e-mail lookup finds, registered authors first |
| ReviewerAssignment.AddedRow | app/Http/Controllers/ManuscriptController.php:893-895 | the added row is on the current revision, names the person, takes the user's section and id as section and creator, and is neither invited nor answered |
| ReviewerAssignment.CheckReviewerOrder | app/Http/Controllers/ManuscriptController.php:859-891 | a person is accepted exactly when found and none of corresponding author, co-author of any revision, reviewer of the current revision or associate editor; the first reason that applies is the one reported |
| ReviewerAssignment.AddTwiceRejected | app/Http/Controllers/ManuscriptController.php:883-886 | once a reviewer has been added, adding the same e-mail again is rejected as a second addition |
| ReviewerAssignment.Batch | app/Http/Controllers/ManuscriptController.php:1881-1926 | the corrected batch, which checks each entry against the rows as they stand, only appends rows: one per entry when nothing is rejected, fewer when an entry is rejected |
| ReviewerAssignment.BatchAsWritten | app/Http/Controllers/ManuscriptController.php:1893-1922 | as written, the batch only appends rows, all on the current revision: one per entry when nothing is rejected, fewer when an entry is rejected |
| ReviewerAssignment.DuplicateBatchAsWritten | app/Http/Controllers/ManuscriptController.php:1906-1909 | as written, a batch naming the same e-mail twice passes both entries and attaches the reviewer twice to the current revision |
| ReviewerAssignment.DuplicateBatchRejected | app/Http/Controllers/ManuscriptController.php:1906-1909 | checked against the rows as they stand, the second entry is rejected as a second addition and the reviewer is attached once |
| ReviewerAssignment.BatchKeepsReviewersDistinct | app/Http/Controllers/ManuscriptController.php:1883-1922 | a corrected batch never attaches two people with the same id to the current revision |
| ReviewerAssignment.AppendKeepsDistinct | app/Http/Controllers/ManuscriptController.php:883-895 | appending a reviewer not yet on the revision keeps the revision's reviewers distinct |
| ReviewerAssignment.BatchSplits | app/Http/Controllers/ManuscriptController.php:1883-1925 | a batch is its first part followed by the rest unless the first part was rejected, so additions made before a rejection stay |
| ReviewerAssignment.CarriedRow | app/Http/Controllers/ManuscriptController.php:1641-1648 | a carried row keeps the reviewer, section and creator (the signed-in user when there was none) on the new revision, and starts uninvited and unanswered |
| ReviewerAssignment.CarriedForward | app/Http/Controllers/ManuscriptController.php:1633-1649 | the rows `updateRevise` appends are fresh rows on the new revision, each a copy of a reviewer row of the old revision whose reviewer reviewed it, and every such row is copied |
| ReviewerAssignment.UnreviewedNotCarried | app/Http/Controllers/ManuscriptController.php:1634-1638 | a reviewer with no review on the old revision is not carried to the new one |
| ReviewerAssignment.PurgeOnlyLoneGuests | app/Http/Controllers/ManuscriptController.php:911-914 | a reviewer still referred to by a row is never deleted, and a registered author is never deleted with its row |
| ReviewerAssignment.LinkAuthor | app/Http/Controllers/ManuscriptController.php:928-967 | linking a formatter or proofreader fails exactly when the e-mail matches nobody; otherwise the person found is linked to the current revision with the user's section and id |
| ReviewerAssignment.LinkAuthorUnchecked | app/Http/Controllers/ManuscriptController.php:945-963 | the checks that stop a reviewer do not apply: the corresponding author can be linked as formatter or proofreader though it would be refused as reviewer |
| RevisionPipeline.Saved | app/Http/Controllers/ManuscriptController.php:1670-1671 | saving an unchanged revision writes nothing; saving a changed one keeps the change and stamps `updated_at` with the current time |
| RevisionPipeline.SetStatus | app/Http/Controllers/ManuscriptController.php:1672-1673 | a status change sets the status and nothing else |
| RevisionPipeline.SendForSimilarityCheck | app/Http/Controllers/ManuscriptController.php:1706-1718 | the similarity check becomes required with no result recorded, nothing else changes |
| RevisionPipeline.UpdateSimilarity | app/Http/Controllers/ManuscriptController.php:1720-1733 | the similarity is recorded and pagination becomes required with no pages recorded, nothing else changes |
| RevisionPipeline.SendForPagination | app/Http/Controllers/ManuscriptController.php:1786-1798 | pagination becomes required with no pages recorded, nothing else changes |
| RevisionPipeline.UpdatePages | app/Http/Controllers/ManuscriptController.php:1800-1821 | the pages and the new source file are recorded and the grammar check becomes required with no result, nothing else changes |
| RevisionPipeline.SendForGrammarCheck | app/Http/Controllers/ManuscriptController.php:1823-1835 | the grammar check becomes required and its result is stored as false, not left empty; nothing else changes |
| RevisionPipeline.GrammarUpdated | app/Http/Controllers/ManuscriptController.php:1837-1854 | the grammar is marked updated and the corrected source file stored, nothing else changes |
| RevisionPipeline.HandOff | app/Http/Controllers/ManuscriptController.php:1735-1784 | the revision passes to the formatter or the proofreader and pagination is reopened with no pages, nothing else changes |
| RevisionPipeline.FormatPaper | app/Http/Controllers/FormatterController.php:145-175 | the formatted paper and the correction file are stored, the other file only when given, and the revision passes to the proofreader; nothing else changes |
| RevisionPipeline.ProofreadPaper | app/Http/Controllers/ProofreaderController.php:144-160 | the proofread paper is stored and the article becomes ready, nothing else changes |
| RevisionPipeline.AssignAssociateEditor | app/Http/Controllers/ManuscriptController.php:1184-1201 | only the associate editor of the revision changes |
| RevisionPipeline.SetMinimumReviews | app/Http/Controllers/ManuscriptController.php:1352-1362 | only the minimum number of reviews changes |
| RevisionPipeline.SendToEditorInChief | app/Http/Controllers/ManuscriptController.php:1551-1561 | only the comments to the editor in chief change |
| RevisionPipeline.RecordCommentReply | app/Http/Controllers/ManuscriptController.php:1856-1879 | the reply is stored, and the reply file only when one is uploaded; nothing else changes |
| RevisionPipeline.StagesKeepStatus | app/Http/Controllers/ManuscriptController.php:1706-1854 | no acceptance-stage handler changes the status, the associate editor, the comments to the editor in chief or the anonymous file |
| RevisionPipeline.SimilarityCheckMovesList | app/Models/Manuscript.php:270-280 | a conditionally accepted manuscript sent for the similarity check leaves CONDITIONALLY_ACCEPTED and appears on UNDER_SIMILARITY_CHECK |
| RevisionPipeline.SimilarityResultMovesList | app/Models/Manuscript.php:276-286 | recording the similarity moves the manuscript from UNDER_SIMILARITY_CHECK to UNDER_PAGINATION |
| RevisionPipeline.PagesMoveList | app/Models/Manuscript.php:282-292 | recording the pages moves the manuscript from UNDER_PAGINATION to UNDER_GRAMMAR_CHECK |
| RevisionPipeline.GrammarCheckSkipsList | app/Models/Manuscript.php:288-298 | because the grammar result is stored as false, sending for the grammar check puts the manuscript on READY_FOR_ACCEPT and never on UNDER_GRAMMAR_CHECK |
| RevisionPipeline.GrammarUpdateMovesList | app/Models/Manuscript.php:288-298 | a recorded grammar update puts a manuscript whose grammar check was required on READY_FOR_ACCEPT and off UNDER_GRAMMAR_CHECK |
| RevisionPipeline.HandOffLists | app/Http/Controllers/ProofreaderController.php:79-106 | the formatter's upload moves the manuscript from the formatter's list to the proofreader's, and the proofreader's upload takes it off the proofreader's list onto READY_ARTICLE |
| Versioning.Current | app/Models/Manuscript.php:326-332 | in a well-shaped database the current revision belongs to the manuscript and has the highest index among its revisions |
| Versioning.FindIndex | app/Http/Controllers/ManuscriptController.php:1858-1860 | the lookup finds the first revision of the manuscript with the index, and finds none exactly when the manuscript has no revision with that index |
| Versioning.PreviousRevisionExists | app/Http/Controllers/ManuscriptController.php:1858-1860 | whenever the current index is positive, the revision one below exists and is the only one of the manuscript with that index |
| Versioning.CreateKeepsVersioned | app/Http/Controllers/ManuscriptController.php:726-756 | creating a manuscript together with its index-0 revision as current keeps every manuscript on its latest revision and `(manuscript_id, index)` unique |
| Versioning.EditKeepsVersioned | database/migrations/2023_04_15_000012_create_revisions_table.php:40 | editing a revision in place without changing its manuscript or index keeps the shape, uniqueness of `(manuscript_id, index)` included |
| Versioning.ManuscriptEditKeepsVersioned | app/Console/Commands/DeleteOldManuscriptFiles_copyNew.php:90-93 | editing a manuscript row without moving its current-revision pointer keeps the shape |
| Versioning.ReviseKeepsVersioned | app/Http/Controllers/ManuscriptController.php:1602-1653 | appending the next-index revision and making it current keeps the shape, and its index is above every earlier index of the manuscript, so none is reused |
| People.KeptParts | app/Models/Author.php:71-73 | at most three parts are kept, none empty or "0", and none at all exactly when no part is PHP-truthy |
| People.NameParts | app/Models/Author.php:68-76 | the name is empty exactly when no part is truthy, and splitting a name whose parts hold no space on spaces gives back the kept parts |
| People.Name | app/Models/Author.php:68-76 | a name starts with the first name whenever the first name is kept |
| People.NameWithoutMiddle | app/Models/GuestAuthor.php:43-51 | a missing or "0" middle name leaves exactly one space between first and last name |
| People.DeletedAuthorsHidden | app/Models/Author.php:227-241 | an author is marked deleted exactly when the global scope hides it, and a deleted author is in neither the reviewer nor the associate-editor scope |
| People.NewGuest | app/Models/GuestAuthor.php:37-40 | a new guest is stamped with the signed-in user as creator, is live, and keeps its e-mail and name |
| People.CreatorCanEdit | app/Models/GuestAuthor.php:53-58 | the creator of a guest may edit it, another user may not, and nobody may when nobody is signed in |
| People.FirstAuthorWithEmail | app/Http/Controllers/ManuscriptController.php:859-861 | the author found is the lowest visible author with the e-mail, and none is found exactly when there is no such author |
| People.FirstGuestWithEmail | app/Http/Controllers/ManuscriptController.php:863-865 | the guest found is the lowest live guest with the e-mail, and none is found exactly when there is no such guest |
| People.FindByEmailPrefersAuthors | app/Http/Controllers/ManuscriptController.php:857-866 | nothing is found exactly when neither a visible author nor a live guest has the e-mail; a registered author always wins over a guest; a guest found is live and has the e-mail |
| People.FindByEmail | app/Http/Controllers/ManuscriptController.php:857-866 | whoever is found, a visible author or a live guest, has the e-mail |
| Codes.RevisionCode | app/Models/Revision.php:84-92 | a revision code is "R" followed by digits that read back as the index, a missing index as 0 |
| Codes.ManuscriptCodeShape | app/Models/Manuscript.php:56-64 | an unsaved manuscript has no code; a saved one shows its stored code, prefixed by the current revision's code and a '-' exactly when that revision's index is positive |
| Codes.ManuscriptCode | app/Models/Manuscript.php:56-64 | an unsaved manuscript has no code, and a saved one's code always ends in its stored code |
| Codes.GeneratedCodeParts | app/Models/Manuscript.php:82-86 | a generated code splits on '-' into "PMSL", the two-digit year and the count plus one padded to at least four digits, and each number reads back |
| Codes.GeneratedCodesDiffer | app/Models/Manuscript.php:84-85 | within a year two different counts never produce the same code |
| Codes.GeneratedCode | app/Models/Manuscript.php:82-86 | a generated code starts with "PMSL-" and is at least twelve characters long |
| Codes.Step | app/Models/Manuscript.php:66-80 | `basic` holds exactly for a saved manuscript, and an unsaved one shows no reviewers, no authors and status pending |
| Codes.StepReadsRevisions | app/Models/Manuscript.php:70-76 | `step` shows the current revision's status, and a reviewer row on any revision of the manuscript sets `reviewer` |
| Codes.ColumnSlug | app/Models/Revision.php:112 | the column part of an upload name is the column name with every '_' turned into '-' and nothing else changed |
| Codes.UploadNameShape | app/Models/Revision.php:94-117 | an upload name is the stored manuscript code, the column slug and the random suffix with its extension joined by '-', led by the revision code exactly when the index is positive |
| Codes.UploadName | app/Models/Revision.php:94-117 | whatever the index and stored code, an upload name ends in the column slug, '-', and the random suffix with its extension |
| Dashboard.DisplayNameRoundTrip | app/Http/Controllers/HomeController.php:49 | the shown name of a bucket made of lower-case letters and '-' reads back as the bucket |
| Dashboard.DisplayNamesDiffer | app/Http/Controllers/HomeController.php:45-50 | two different buckets are never shown under the same name |
| Dashboard.CountUnder | app/Http/Controllers/HomeController.php:36-46 | no bucket counts more manuscripts than there are |
| Dashboard.Counted | app/Http/Controllers/HomeController.php:40-44 | no role sees deleted or withdrawn manuscripts counted; authors and reviewers do not see rejected or revision-required ones; every other role sees all the rest |
| Dashboard.Bucket | app/Http/Controllers/HomeController.php:38 | a status other than the revision-required ones is counted under its own value; the shared "revision-required" bucket is no status's value |
| Dashboard.BucketsSeparate | app/Http/Controllers/HomeController.php:36-46 | only the two revision-required statuses share a bucket; every other status has a bucket of its own |
| Dashboard.CountUnderOwnBucket | app/Http/Controllers/HomeController.php:36-46 | the count under the bucket of a counted status other than the revision-required ones is the number of manuscripts currently in that status |
| Dashboard.CountUnderOtherNames | app/Http/Controllers/HomeController.php:36-46 | a name that is no status's bucket counts nothing |
| Dashboard.BucketSlugs | app/Http/Controllers/HomeController.php:38 | every bucket name is lower-case letters and '-', so the shown names of the buckets differ |
| Dashboard.RevisionRequiredMerged | app/Http/Controllers/HomeController.php:38 | for the full dashboard the "revision-required" bucket counts exactly the manuscripts in minor plus those in major revision |
| Dashboard.HiddenStatusesIgnored | app/Http/Controllers/HomeController.php:40-44 | a manuscript whose status the role does not see adds nothing to any count, as if it had no current revision |
| Dashboard.CountedByRole | app/Http/Controllers/HomeController.php:40-44 | authors and reviewers never see rejected, revision-required or withdrawn manuscripts counted; every other role sees every status except deleted and withdrawn |
| Dashboard.MarchThirtyFirstAsWritten | app/Http/Controllers/HomeController.php:80-86 | as written, on 31 March 2024 the slot one month back falls in March again, so March is listed twice and February never |
| Dashboard.SubMonthsAsWritten | app/Http/Controllers/HomeController.php:80-81 | as written, the month of `now()->subMonths(i)` is the intended month, or the one after it when the day overflows; on days up to the 28th it is the intended month |
| Dashboard.SlotMonth | app/Http/Controllers/HomeController.php:80-81 | slot k is the month 11 − k months before the current one |
| Dashboard.SlotsConsecutive | app/Http/Controllers/HomeController.php:80-87 | the twelve slots are consecutive months, so no month is listed twice |
| Dashboard.MonthlySeries | app/Http/Controllers/HomeController.php:53-90 | the series has twelve months oldest first, each with the count of its month or 0; the author series is present exactly for roles other than author and reviewer |
| Dashboard.MonthLabel | app/Http/Controllers/HomeController.php:82 | a label is the month's three-letter name, ", " and the year in digits |
| Dashboard.LabelsDiffer | app/Http/Controllers/HomeController.php:82 | different months get different labels |
| Client.LastIndexOf | resources/ts/app.ts:42 | the position found holds the character and none after it does; -1 means the character does not occur |
| Client.LastIndexUnique | resources/ts/app.ts:42 | the last occurrence is the only position holding the character with none after it |
| Client.LastPieceOfSplit | resources/ts/app.ts:41-47 | what follows the last delimiter is the last piece of splitting on that delimiter |
| Client.AfterIsLastPiece | resources/ts/app.ts:41-47 | `basename` and `extension` give the last piece of the path after '/' or '.': it holds no delimiter, the path ends with it right after a delimiter, and a path without delimiter is returned whole |
| Client.TrimStart | resources/ts/app.ts:50 | trimming the start leaves a suffix of the value that does not begin with white space, and everything removed is white space |
| Client.TrimEnd | resources/ts/app.ts:50 | trimming the end leaves a prefix of the value that does not end with white space, and everything removed is white space |
| Client.RunsAlternate | resources/ts/app.ts:50 | word starts and white-space runs alternate, so their counts differ only by how the text begins and ends |
| Client.TrimStartKeepsWords | resources/ts/app.ts:50 | trimming leading white space keeps the number of words |
| Client.TrimEndKeepsWords | resources/ts/app.ts:50 | trimming trailing white space keeps the number of words |
| Client.WordCountCountsWords | resources/ts/app.ts:49-51 | `wordCount` is the number of maximal runs of non-white-space characters: 0 for a blank value |
| Client.WordCount | resources/ts/app.ts:49-51 | the count is 0 exactly when the value is blank |
| Client.Step | resources/ts/app.ts:15 | each step of the walk yields a value, never null: what the key reads when truthy, the fallback otherwise |
| Client.WalkResolved | resources/ts/app.ts:15 | a path that resolves through truthy values walks to the value it reaches |
| Client.FallbackSticks | resources/ts/app.ts:15 | once the walk falls back, keys that read nothing from a string keep the fallback |
| Client.GetValueMeaning | resources/ts/app.ts:13-17 | a path resolving to a truthy value gives that value; a path with a falsy step gives the fallback, provided no later key reads into the fallback string |
| Client.GetValue | resources/ts/app.ts:13-17 | the value shown is truthy, or else it is the fallback |
| Client.MissingThenLength | resources/ts/app.ts:13-17 | a missing field followed by `length` reads the length of the fallback: "-" gives 1, not "-" |
| Text.ParseNatToString | app/Models/Revision.php:89 | the decimal rendering of a number reads back as the number |
| Text.ZeroPadValue | app/Models/Manuscript.php:85 | zero padding never changes the number the digits denote |
| Text.JoinSplit | app/Http/Requests/Manuscript/UpdateRequest.php:180 | joining the pieces of a split on the same delimiter gives the string back |
| Text.SplitJoin | app/Http/Requests/Manuscript/UpdateRequest.php:262-264 | splitting what was joined on a delimiter no part contains gives the parts back |
| Text.ArrayFilter | app/Models/Revision.php:109-114 | `array_filter` keeps only truthy strings, and keeps a list of truthy strings whole |
| Text.Trim | app/Http/Requests/Manuscript/UpdateRequest.php:180 | a trimmed string neither starts nor ends with PHP white space |
| Text.TrimStripsOnlySpace | app/Http/Requests/Manuscript/UpdateRequest.php:180 | `trim()` gives a contiguous stretch of the string, and everything before and after that stretch is PHP white space |
| Text.TrimLeft | app/Http/Requests/Manuscript/UpdateRequest.php:180 | the left trim leaves a suffix that does not begin with PHP white space, and everything removed is white space |
| Text.TrimRight | app/Http/Requests/Manuscript/UpdateRequest.php:180 | the right trim leaves a prefix that does not end with PHP white space, and everything removed is white space |
| Text.ReplaceCharAt | app/Models/Revision.php:112 | replacing one character by another maps the string character by character and keeps its length |
| UpdateRequest.Authorize | app/Http/Requests/Manuscript/UpdateRequest.php:24-32 | every action is authorised at the request level; access control is left to the controller |
| UpdateRequest.PrepareKeywords | app/Http/Requests/Manuscript/UpdateRequest.php:180 | the keyword list never has more entries than comma-separated pieces, and no keyword contains a comma |
| UpdateRequest.FilterShrinks | app/Http/Requests/Manuscript/UpdateRequest.php:180 | filtering out falsy pieces never adds an element and keeps only elements of the input |
| UpdateRequest.StoredAsPieces | app/Http/Requests/Manuscript/UpdateRequest.php:262-264 | the stored keyword string is the comma-join of the first keyword and each further keyword prefixed by a space |
| UpdateRequest.CleanPieces | app/Http/Requests/Manuscript/UpdateRequest.php:180 | every stored piece of clean keywords is comma-free, truthy and trims back to its keyword |
| UpdateRequest.KeywordsRoundTrip | app/Http/Requests/Manuscript/UpdateRequest.php:180 | preparing the stored string of a non-empty list of clean keywords yields the same list |
| UpdateRequest.BlankKeywordSurvives | app/Http/Requests/Manuscript/UpdateRequest.php:180 | a trailing ", " survives filtering as one blank keyword, since " " is truthy and trimmed only afterwards |
| UpdateRequest.CountIn | app/Http/Requests/Manuscript/UpdateRequest.php:86-90 | the number of reviewers counted for a country never exceeds the number of reviewers |
| UpdateRequest.CountedIsPresent | app/Http/Requests/Manuscript/UpdateRequest.php:86-90 | a country with a positive count is the (pooled) country of some reviewer |
| UpdateRequest.CountryCapMeaning | app/Http/Requests/Manuscript/UpdateRequest.php:86-90 | the reviewer list passes the country rule exactly when no country is counted more than three times |
| UpdateRequest.NoCountryPooledWithZero | app/Http/Requests/Manuscript/UpdateRequest.php:86-90 | a reviewer without a country counts against country id 0, so replacing a missing country by 0 never changes the verdict |
| UpdateRequest.FourFromOneCountryRejected | app/Http/Requests/Manuscript/UpdateRequest.php:85-100 | a reviewer list with four reviewers from one country fails validation |
| UpdateRequest.ReviewerListValid | app/Http/Requests/Manuscript/UpdateRequest.php:85-101 | a valid reviewer list has at least `minimum_reviews` entries and no more than three reviewers in any country group |
| UpdateRequest.ReviseNeedsAllFiles | app/Http/Requests/Manuscript/UpdateRequest.php:129-139 | a revision missing the source file, the anonymous file or the response letter fails validation |
| UpdateRequest.ReviseValid | app/Http/Requests/Manuscript/UpdateRequest.php:128-139 | a valid revise request has at least three keywords, all three uploads, and a title no other manuscript's revision uses |
| UpdateRequest.ReplyFileRule | app/Http/Requests/Manuscript/UpdateRequest.php:155-164 | a comment-reply file is required exactly when the previous revision has none, and never for the first revision |
| UpdateRequest.SingleDigitIndex | app/Http/Requests/Manuscript/UpdateRequest.php:246-248 | a one-digit index between dots is replaced by the index plus one, surrounded by spaces |
| UpdateRequest.TwoDigitIndexAsWritten | app/Http/Requests/Manuscript/UpdateRequest.php:246-248 | as written, for a two-digit index the first digit is captured and bumped, and the second is consumed as the trailing wildcard, so the dot before the field stays |
| UpdateRequest.EleventhReviewerLabel | app/Http/Requests/Manuscript/UpdateRequest.php:246-248 | as written, the eleventh reviewer's key is labelled as reviewer 2 |
| UpdateRequest.LabelAsWritten | app/Http/Requests/Manuscript/UpdateRequest.php:238-254 | as written, a shown attribute name never contains '_'; the two lemmas below give its value |
| UpdateRequest.LabelOfSingleDigitAsWritten | app/Http/Requests/Manuscript/UpdateRequest.php:238-254 | as written, "name.d.field" with a single digit d and plain name and field is shown as "name d+1 field" |
| UpdateRequest.LabelOfTwoDigitAsWritten | app/Http/Requests/Manuscript/UpdateRequest.php:238-254 | as written, "name.c1c2.field" is shown as "name c1+1 .field": the second digit is lost and the dot stays |
| UpdateRequest.PolishKeeps | app/Http/Requests/Manuscript/UpdateRequest.php:243-244 | the `str_replace` step leaves a string with no " id", no " accepted" and no '_' unchanged |
| UpdateRequest.BumpPieces | app/Http/Requests/Manuscript/UpdateRequest.php:238-254 | the corrected rewrite increments each dot-separated numeric piece and leaves every other piece unchanged |
| UpdateRequest.IndexLabel | app/Http/Requests/Manuscript/UpdateRequest.php:238-254 | the corrected rewrite labels any index n, of any number of digits, as n + 1 |
| UpdateRequest.Label | app/Http/Requests/Manuscript/UpdateRequest.php:238-254 | the corrected attribute name never contains '_'; LabelOfIndex gives its value |
| UpdateRequest.LabelOfIndex | app/Http/Requests/Manuscript/UpdateRequest.php:238-254 | with the index read as a whole number, "name.n.field" is shown as "name n+1 field" for plain name and field, whatever the number of digits |
| UpdateRequest.LabelsAgreeBelowTen | app/Http/Requests/Manuscript/UpdateRequest.php:246-248 | the corrected rewrite agrees with the code as written for every single-digit index |

## Left out

- Notifications: mail and template rendering are left out. A notification is a (recipient, kind, manuscript) record appended to a log. The mail content that `reInvite` composes is not modelled.
- Storage: file storage is an abstract set of stored paths. A delete that fails is modelled by a set of failing paths, and `Storage::exists` by membership. The random suffix and the extension of an uploaded file are parameters.
- The sweeps' `sleep()` delays, their logging and the scheduler (app/Console/Kernel.php) are left out. The jobs run one at a time.
- The retention job's dry run only prints, so it is modelled as changing nothing. Its year comparison is taken in UTC.
- Store.Database.RetentionSweep: the job does not touch `updated_at` and nulls columns that the revisions and manuscripts migrations declare NOT NULL. Those fields are modelled as optional values, so a database rejecting the write is not modelled.
- Concurrency: the reload-then-write race in `accept`/`deny` is not modelled; every call is sequential.
- Eloquent and SQL building, pagination, search, eager loading, field visibility (`makeVisible`) and Inertia rendering are not part of this model. A `find()` that returns nothing is modelled as a not-found outcome that changes nothing.
- Hash-id decoding (`decodeHashId`) is taken as already done: ids in requests are plain row ids.
- Permissions are left out of the menu model. `Section::items` therefore keeps every entry whatever the user's permissions.
- `removeRevisionAuthor` and the other author-list handlers are not modelled; only the unchecked author link used for formatters and proofreaders is (`ReviewerAssignment.LinkAuthor`).
- `storeUpdate` (manuscript creation and editing) is modelled only through its effect on the revision chain (`Versioning.CreateKeepsVersioned`). Research areas, the copyright upload on create and the creation event are not modelled.
- A revision created by `updateRevise` has no associate editor and the default `minimum_reviews` of 8, as in the database defaults.
- Dashboard.CountUnder: the counts take the current statuses of the manuscripts as a sequence, not the database query that groups them.
- The request field rules that only bound single values (`InviteValid`, `SimilarityValid`, `PagesValid`, `GrammarUpdatedValid`, `SendToEicValid` in `UpdateRequest`) are definitions used by the handlers' preconditions, with no lemma of their own.
- Store.Database.UpdateStatus, Store.Database.RevisionRequired, Store.Database.Submit, Store.Database.RemindAuthor, Store.Database.UpdateRevise: the corresponding author is taken to exist. When the author has been soft-deleted, `$manuscript->author` is null and the `notify()` call throws after the revision and the event have been saved. The model always appends the notice instead.
- Store.Database.RunSweep, Store.Database.SweepRow, Store.Database.NudgeReviewer: a row whose `reviewer` relation is null (a deleted author or guest) makes the notification call throw, which stops a sweep part-way through its rows. The model notifies every picked row and finishes the sweep.
- People.FirstAuthorWithEmail, People.FirstGuestWithEmail, People.FindByEmail, ReviewerAssignment.CheckReviewer, Store.Database.MergeGuest: e-mails are compared exactly, character by character. The database's default collation compares them without regard to case, so a lookup there can also match an address that differs only in case.
- Store.Database.Submit: the `termAndConditions()->sync(...)` of the accepted terms (app/Http/Controllers/ManuscriptController.php:1170) is not modelled, and neither are the `term_and_conditions` request rules.
- UpdateRequest.ReviewerListValid: the `email` format rule on `reviewers.*.email` is not modelled; only presence, distinctness and the 255-character bound are.
- Store.Database.NudgeReviewer, Store.Database.InviteRow, Store.Database.RemindRow: `invite_count` and `remind_count` are TINYINT columns, so a stored counter cannot go above 127. The model's counters are unbounded. The sweeps stop at their caps of 2 and 6, but the manual re-invite and remind actions have no cap and could reach that ceiling.
- The Luxon-based `date()` helper of the browser client is not modelled: it formats dates through a library.
- Authentication, sessions, routing, signed URLs and the CRUD controllers for authors and roles are outside the workflow and are not modelled.

## Findings

| source | as written | input that shows it | evidently intended | confidence | as-written member | corrected member |
|---|---|---|---|---|---|---|
| app/Http/Controllers/ManuscriptController.php:1893-1922 | `addRevisionReviewers` checks "already a reviewer" against the revision's reviewer relation as loaded before the loop, so rows inserted earlier in the same batch are not seen | a batch naming the same unattached e-mail twice | the second entry is rejected as already a reviewer, and one row is inserted | not executed | ReviewerAssignment.DuplicateBatchAsWritten | ReviewerAssignment.DuplicateBatchRejected |
| app/Http/Requests/Manuscript/UpdateRequest.php:246-248 | the label pattern `.(\d).` matches one digit between any two characters, so for a two-digit index the first digit is captured and bumped and the second is consumed as the trailing wildcard | the key "reviewers.10.email" becomes "reviewers 2 .email" | the eleventh reviewer is labelled "reviewers 11 email" | not executed | UpdateRequest.EleventhReviewerLabel | UpdateRequest.IndexLabel |
| app/Http/Controllers/HomeController.php:80-86 | each month slot is `now()->subMonths($i)`, which overflows into the next month when the day does not exist in the target month | on 31 March, one month back gives 2 March, so two slots are labelled March and February is missing | twelve consecutive calendar months ending with the current one | not executed | Dashboard.MarchThirtyFirstAsWritten | Dashboard.MonthlySeries |

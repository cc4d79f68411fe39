/**
 * What the editorial handlers write on the current revision: the status changes, the
 * post-acceptance stages (similarity check, pagination, grammar check), the formatter and
 * proofreader hand-offs and their uploads, and the editors' own fields. Each function gives
 * the revision as the handler leaves it before `save()`; `Saved` adds the timestamp Eloquent
 * writes when something changed.
 */
module RevisionPipeline {
  import opened Wrappers
  import opened Records
  import StatusEnum
  import SectionEnum
  import FilterEnum
  import opened ListFilters

  type Status = StatusEnum.Status

  /** `save()`: a revision whose attributes changed gets `updated_at = now`; an unchanged one is not written. */
  function Saved(before: Revision, after: Revision, now: Time): (r: Revision)
    ensures after == before ==> r == before
    ensures after != before ==> r == after.(updatedAt := now)
  {
    if after == before then before else after.(updatedAt := now)
  }

  /** `updateStatus` / `revisionRequired` / `submit`: only the status changes. */
  function SetStatus(r: Revision, s: Status): (r': Revision)
    ensures r'.status == s && r'.(status := r.status) == r
  {
    r.(status := s)
  }

  /** `sendForSimilarityCheck`: a similarity result is now required and none is recorded. */
  function SendForSimilarityCheck(r: Revision): (r': Revision)
    ensures r'.similarityCheckRequired && r'.similarity.None?
    ensures r'.(similarityCheckRequired := r.similarityCheckRequired, similarity := r.similarity) == r
  {
    r.(similarityCheckRequired := true, similarity := None)
  }

  /** `updateSimilarity`: records the result and opens the pagination stage. */
  function UpdateSimilarity(r: Revision, similarity: nat): (r': Revision)
    ensures r'.similarity == Some(similarity) && r'.paginationRequired && r'.pages.None?
    ensures r'.(similarity := r.similarity, paginationRequired := r.paginationRequired, pages := r.pages) == r
  {
    r.(similarity := Some(similarity), paginationRequired := true, pages := None)
  }

  /** `sendForPagination`: page numbers are now required and none are recorded. */
  function SendForPagination(r: Revision): (r': Revision)
    ensures r'.paginationRequired && r'.pages.None?
    ensures r'.(paginationRequired := r.paginationRequired, pages := r.pages) == r
  {
    r.(paginationRequired := true, pages := None)
  }

  /** `updatePages`: records the page count and the new source file, and opens the grammar stage. */
  function UpdatePages(r: Revision, pages: nat, sourceFile: string): (r': Revision)
    ensures r'.pages == Some(pages) && r'.sourceFile == Some(sourceFile)
    ensures r'.grammarCheckRequired && r'.grammarUpdated.None?
    ensures r'.(pages := r.pages, sourceFile := r.sourceFile, grammarCheckRequired := r.grammarCheckRequired,
                grammarUpdated := r.grammarUpdated) == r
  {
    r.(pages := Some(pages), sourceFile := Some(sourceFile), grammarCheckRequired := true, grammarUpdated := None)
  }

  /** `sendForGrammarCheck`: the grammar check is required and the result is stored as `false`, not left empty. */
  function SendForGrammarCheck(r: Revision): (r': Revision)
    ensures r'.grammarCheckRequired && r'.grammarUpdated == Some(false)
    ensures r'.(grammarCheckRequired := r.grammarCheckRequired, grammarUpdated := r.grammarUpdated) == r
  {
    r.(grammarCheckRequired := true, grammarUpdated := Some(false))
  }

  /** `grammarUpdated`: marks the grammar as updated and stores the corrected source file. */
  function GrammarUpdated(r: Revision, sourceFile: string): (r': Revision)
    ensures r'.grammarUpdated == Some(true) && r'.sourceFile == Some(sourceFile)
    ensures r'.(grammarUpdated := r.grammarUpdated, sourceFile := r.sourceFile) == r
  {
    r.(grammarUpdated := Some(true), sourceFile := Some(sourceFile))
  }

  /** `updateFormatter` / `updateProofreader`: hands the revision over and reopens pagination. */
  function HandOff(r: Revision, stage: Status): (r': Revision)
    requires stage == StatusEnum.Formatter || stage == StatusEnum.Proofreader
    ensures r'.status == stage && r'.paginationRequired && r'.pages.None?
    ensures r'.(status := r.status, paginationRequired := r.paginationRequired, pages := r.pages) == r
  {
    r.(status := stage, paginationRequired := true, pages := None)
  }

  /** `formatPaper`: stores the formatted paper and correction file, the other file when one is supplied, and passes to the proofreader. */
  function FormatPaper(r: Revision, formatted: string, correction: string, other: Option<string>): (r': Revision)
    ensures r'.formattedPaper == Some(formatted) && r'.correctionFile == Some(correction)
    ensures r'.otherFile == (if other.Some? then other else r.otherFile)
    ensures r'.status == StatusEnum.Proofreader
    ensures r'.(formattedPaper := r.formattedPaper, correctionFile := r.correctionFile, otherFile := r.otherFile,
                status := r.status) == r
  {
    r.(formattedPaper := Some(formatted), correctionFile := Some(correction),
       otherFile := if other.Some? then other else r.otherFile, status := StatusEnum.Proofreader)
  }

  /** `proofreaderPaper`: stores the proofread paper; the article is ready. */
  function ProofreadPaper(r: Revision, paper: string): (r': Revision)
    ensures r'.proofreaderPaper == Some(paper) && r'.status == StatusEnum.ReadyArticle
    ensures r'.(proofreaderPaper := r.proofreaderPaper, status := r.status) == r
  {
    r.(proofreaderPaper := Some(paper), status := StatusEnum.ReadyArticle)
  }

  /** `assignAssociateEditor`. */
  function AssignAssociateEditor(r: Revision, editorId: nat): (r': Revision)
    ensures r'.associateEditorId == Some(editorId) && r'.(associateEditorId := r.associateEditorId) == r
  {
    r.(associateEditorId := Some(editorId))
  }

  /** `updateInvite`: the number of reviews the associate editor waits for. */
  function SetMinimumReviews(r: Revision, minimum: nat): (r': Revision)
    ensures r'.minimumReviews == minimum && r'.(minimumReviews := r.minimumReviews) == r
  {
    r.(minimumReviews := minimum)
  }

  /** `sendToEIC`: the associate editor's comments, which pass the manuscript to the editor-in-chief. */
  function SendToEditorInChief(r: Revision, comments: string): (r': Revision)
    ensures r'.commentsToEic == Some(comments) && r'.(commentsToEic := r.commentsToEic) == r
  {
    r.(commentsToEic := Some(comments))
  }

  /** The author's reply on a revision, with the reply file when one is supplied. */
  function RecordCommentReply(r: Revision, reply: string, file: Option<string>): (r': Revision)
    ensures r'.commentReply == Some(reply)
    ensures r'.commentReplyFile == (if file.Some? then file else r.commentReplyFile)
    ensures r'.(commentReply := r.commentReply, commentReplyFile := r.commentReplyFile) == r
  {
    r.(commentReply := Some(reply), commentReplyFile := if file.Some? then file else r.commentReplyFile)
  }

  /** The handlers of the acceptance stages, which leave the status alone. */
  datatype Stage =
    | SimilarityCheckSent
    | SimilarityRecorded(similarity: nat)
    | PaginationSent
    | PagesRecorded(pages: nat, sourceFile: string)
    | GrammarCheckSent
    | GrammarRecorded(sourceFile: string)

  function ApplyStage(r: Revision, st: Stage): Revision
  {
    match st
    case SimilarityCheckSent => SendForSimilarityCheck(r)
    case SimilarityRecorded(v) => UpdateSimilarity(r, v)
    case PaginationSent => SendForPagination(r)
    case PagesRecorded(p, f) => UpdatePages(r, p, f)
    case GrammarCheckSent => SendForGrammarCheck(r)
    case GrammarRecorded(f) => GrammarUpdated(r, f)
  }

  /** No stage handler changes the status, the editors' fields or the uploads other than the source file. */
  lemma StagesKeepStatus(r: Revision, st: Stage)
    ensures ApplyStage(r, st).status == r.status
    ensures ApplyStage(r, st).associateEditorId == r.associateEditorId
    ensures ApplyStage(r, st).commentsToEic == r.commentsToEic
    ensures ApplyStage(r, st).anonymousFile == r.anonymousFile
  {
  }

  /** The listing of the same manuscript once its current revision has been replaced. */
  function WithCurrent(l: Listing, r: Revision): Listing
  {
    l.(current := Some(r))
  }

  /** A conditionally accepted manuscript sent for the similarity check moves from CONDITIONALLY_ACCEPTED to UNDER_SIMILARITY_CHECK. */
  lemma SimilarityCheckMovesList(user: User, l: Listing, r: Revision)
    requires r.status == StatusEnum.ConditionallyAccepted
    ensures FilterScope(user, FilterEnum.UnderSimilarityCheck, WithCurrent(l, SendForSimilarityCheck(r)))
    ensures !FilterScope(user, FilterEnum.ConditionallyAccepted, WithCurrent(l, SendForSimilarityCheck(r)))
  {
  }

  /** Recording the similarity takes the manuscript off UNDER_SIMILARITY_CHECK and puts it on UNDER_PAGINATION. */
  lemma SimilarityResultMovesList(user: User, l: Listing, r: Revision, v: nat)
    requires r.status == StatusEnum.ConditionallyAccepted
    ensures !FilterScope(user, FilterEnum.UnderSimilarityCheck, WithCurrent(l, UpdateSimilarity(r, v)))
    ensures FilterScope(user, FilterEnum.UnderPagination, WithCurrent(l, UpdateSimilarity(r, v)))
  {
  }

  /** Recording the pages takes the manuscript off UNDER_PAGINATION and puts it on UNDER_GRAMMAR_CHECK. */
  lemma PagesMoveList(user: User, l: Listing, r: Revision, p: nat, f: string)
    requires r.status == StatusEnum.ConditionallyAccepted
    ensures !FilterScope(user, FilterEnum.UnderPagination, WithCurrent(l, UpdatePages(r, p, f)))
    ensures FilterScope(user, FilterEnum.UnderGrammarCheck, WithCurrent(l, UpdatePages(r, p, f)))
  {
  }

  /**
   * Because `sendForGrammarCheck` stores `false` rather than leaving the result empty, the
   * manuscript lands on READY_FOR_ACCEPT and never on UNDER_GRAMMAR_CHECK.
   */
  lemma GrammarCheckSkipsList(user: User, l: Listing, r: Revision)
    requires r.status == StatusEnum.ConditionallyAccepted
    ensures FilterScope(user, FilterEnum.ReadyForAccept, WithCurrent(l, SendForGrammarCheck(r)))
    ensures !FilterScope(user, FilterEnum.UnderGrammarCheck, WithCurrent(l, SendForGrammarCheck(r)))
  {
  }

  /** A recorded grammar update puts a manuscript whose grammar check was required on READY_FOR_ACCEPT. */
  lemma GrammarUpdateMovesList(user: User, l: Listing, r: Revision, f: string)
    requires r.status == StatusEnum.ConditionallyAccepted && r.grammarCheckRequired
    ensures FilterScope(user, FilterEnum.ReadyForAccept, WithCurrent(l, GrammarUpdated(r, f)))
    ensures !FilterScope(user, FilterEnum.UnderGrammarCheck, WithCurrent(l, GrammarUpdated(r, f)))
  {
  }

  /** The formatter's upload moves the manuscript from the formatter's list to the proofreader's, and the proofreader's upload takes it off both. */
  lemma HandOffLists(user: User, l: Listing, r: Revision, formatted: string, correction: string, other: Option<string>, paper: string)
    requires LinkedAsRevisionAuthor(user, l)
    ensures ProofreaderListed(user, WithCurrent(l, FormatPaper(r, formatted, correction, other)))
    ensures !FormatterListed(user, FilterEnum.Formatter, WithCurrent(l, FormatPaper(r, formatted, correction, other)))
    ensures !ProofreaderListed(user, WithCurrent(l, ProofreadPaper(r, paper)))
    ensures FilterScope(user, FilterEnum.ReadyArticle, WithCurrent(l, ProofreadPaper(r, paper)))
  {
    var i :| 0 <= i < |l.currentAuthors| && l.currentAuthors[i].author.Key() == user.id;
    assert WithCurrent(l, FormatPaper(r, formatted, correction, other)).currentAuthors[i] == l.currentAuthors[i];
  }
}

/** The operations a user can ask for on a manuscript (the backed enum `Manuscript\Action`). */
module ActionEnum {
  import opened Wrappers
  import Text

  /** The translation group of the action labels. */
  const LabelGroup := "manuscript.action."
  import StatusEnum

  datatype Action =
    | Create
    | Edit
    | View
    | Reviewers
    | AddReviewer
    | AddReviewers
    | AddReviewerManually
    | RemoveReviewer
    | Authors
    | AddAuthor
    | AddAuthorManually
    | RemoveAuthor
    | Submit
    | Withdraw
    | Delete
    | Invite
    | ConditionallyAccept
    | Accept
    | Reject
    | Production
    | Formatter
    | Proofreader
    | Publication
    | Publish
    | AssignAssociateEditor
    | InviteReviewer
    | InviteMoreReviewer
    | ReinviteReviewer
    | AcceptReviewInvite
    | DenyReviewInvite
    | RemindReviewer
    | Review
    | SendToEic
    | SendForSimilarityCheck
    | UpdateSimilarity
    | UpdateFormatter
    | UpdateProofreader
    | SendForPagination
    | UpdatePages
    | SendForGrammarCheck
    | GrammarUpdated
    | MinorRevision
    | MajorRevision
    | Revise
    | UpdateComment
    | UpdateCommentReply
    | RemindAuthor
    | GetProofreader
  {
    /** The string the case is backed by. */
    function Value(): string
    {
      match this
      case Create => "create"
      case Edit => "edit"
      case View => "view"
      case Reviewers => "reviewers"
      case AddReviewer => "add-reviewer"
      case AddReviewers => "add-reviewers"
      case AddReviewerManually => "add-reviewer-manually"
      case RemoveReviewer => "remove-reviewer"
      case Authors => "authors"
      case AddAuthor => "add-author"
      case AddAuthorManually => "add-author-manually"
      case RemoveAuthor => "remove-author"
      case Submit => "submit"
      case Withdraw => "withdraw"
      case Delete => "delete"
      case Invite => "invite"
      case ConditionallyAccept => "conditionally-accept"
      case Accept => "accept"
      case Reject => "reject"
      case Production => "production"
      case Formatter => "formatter"
      case Proofreader => "proofreader"
      case Publication => "publication"
      case Publish => "publish"
      case AssignAssociateEditor => "assign-associate-editor"
      case InviteReviewer => "invite-reviewer"
      case InviteMoreReviewer => "invite-more-reviewer"
      case ReinviteReviewer => "reinvite-reviewer"
      case AcceptReviewInvite => "accept-review-invite"
      case DenyReviewInvite => "deny-review-invite"
      case RemindReviewer => "remind-reviewer"
      case Review => "review"
      case SendToEic => "send-to-eic"
      case SendForSimilarityCheck => "send-for-similarity-check"
      case UpdateSimilarity => "update-similarity"
      case UpdateFormatter => "update-formatter"
      case UpdateProofreader => "update-proofreader"
      case SendForPagination => "send-for-pagination"
      case UpdatePages => "update-pages"
      case SendForGrammarCheck => "send-for-grammar-check"
      case GrammarUpdated => "grammar-checked"
      case MinorRevision => "minor-revision-required"
      case MajorRevision => "major-revision-required"
      case Revise => "revise"
      case UpdateComment => "update-comment"
      case UpdateCommentReply => "update-comment-reply"
      case RemindAuthor => "remind-author"
      case GetProofreader => "get-proofreader"
    }

    /** Position of the case in declaration order. */
    function Index(): nat
    {
      match this
      case Create => 0
      case Edit => 1
      case View => 2
      case Reviewers => 3
      case AddReviewer => 4
      case AddReviewers => 5
      case AddReviewerManually => 6
      case RemoveReviewer => 7
      case Authors => 8
      case AddAuthor => 9
      case AddAuthorManually => 10
      case RemoveAuthor => 11
      case Submit => 12
      case Withdraw => 13
      case Delete => 14
      case Invite => 15
      case ConditionallyAccept => 16
      case Accept => 17
      case Reject => 18
      case Production => 19
      case Formatter => 20
      case Proofreader => 21
      case Publication => 22
      case Publish => 23
      case AssignAssociateEditor => 24
      case InviteReviewer => 25
      case InviteMoreReviewer => 26
      case ReinviteReviewer => 27
      case AcceptReviewInvite => 28
      case DenyReviewInvite => 29
      case RemindReviewer => 30
      case Review => 31
      case SendToEic => 32
      case SendForSimilarityCheck => 33
      case UpdateSimilarity => 34
      case UpdateFormatter => 35
      case UpdateProofreader => 36
      case SendForPagination => 37
      case UpdatePages => 38
      case SendForGrammarCheck => 39
      case GrammarUpdated => 40
      case MinorRevision => 41
      case MajorRevision => 42
      case Revise => 43
      case UpdateComment => 44
      case UpdateCommentReply => 45
      case RemindAuthor => 46
      case GetProofreader => 47
    }

    /**
     * The translation key of the case's label, which `label()` passes to `__()`; reading
     * the key back gives the case.
     */
    function LabelKey(): (k: string)
      ensures FromLabelKey(k) == Some(this)
    {
      FromValueRoundTrip(this);
      Text.TranslationKey(LabelGroup, Value())
    }

    /**
     * `toArray()`, with the translator `__()` as a parameter: exactly the value, which
     * parses back to the case, and the translated label.
     */
    function ToArray(translate: string -> string): (a: map<string, string>)
      ensures a.Keys == {"value", "label"}
      ensures FromValue(a["value"]) == Some(this)
      ensures a["label"] == translate(LabelKey())
    {
      FromValueRoundTrip(this);
      map["value" := Value(), "label" := translate(LabelKey())]
    }
  }

  /** The case at a position in declaration order. */
  function CaseAt(i: nat): Action
    requires i < 48
  {
    match i
    case 0 => Create
    case 1 => Edit
    case 2 => View
    case 3 => Reviewers
    case 4 => AddReviewer
    case 5 => AddReviewers
    case 6 => AddReviewerManually
    case 7 => RemoveReviewer
    case 8 => Authors
    case 9 => AddAuthor
    case 10 => AddAuthorManually
    case 11 => RemoveAuthor
    case 12 => Submit
    case 13 => Withdraw
    case 14 => Delete
    case 15 => Invite
    case 16 => ConditionallyAccept
    case 17 => Accept
    case 18 => Reject
    case 19 => Production
    case 20 => Formatter
    case 21 => Proofreader
    case 22 => Publication
    case 23 => Publish
    case 24 => AssignAssociateEditor
    case 25 => InviteReviewer
    case 26 => InviteMoreReviewer
    case 27 => ReinviteReviewer
    case 28 => AcceptReviewInvite
    case 29 => DenyReviewInvite
    case 30 => RemindReviewer
    case 31 => Review
    case 32 => SendToEic
    case 33 => SendForSimilarityCheck
    case 34 => UpdateSimilarity
    case 35 => UpdateFormatter
    case 36 => UpdateProofreader
    case 37 => SendForPagination
    case 38 => UpdatePages
    case 39 => SendForGrammarCheck
    case 40 => GrammarUpdated
    case 41 => MinorRevision
    case 42 => MajorRevision
    case 43 => Revise
    case 44 => UpdateComment
    case 45 => UpdateCommentReply
    case 46 => RemindAuthor
    case 47 => GetProofreader
    case _ => GetProofreader
  }

  /** Every case in declaration order. */
  function Cases(): (cs: seq<Action>)
    ensures |cs| == 48
  {
    seq(48, i requires 0 <= i < 48 => CaseAt(i))
  }

  /** `Action::values()`: the case values in declaration order. */
  function Values(): seq<string>
  {
    seq(|Cases()|, i requires 0 <= i < |Cases()| => Cases()[i].Value())
  }

  /** `Action::tryFrom($value)`, looking only at the values of the right length. */
  function FromValue(v: string): Option<Action>
  {
    match |v|
    case 4 =>
      if v == "edit" then Some(Edit)
      else if v == "view" then Some(View)
      else None
    case 6 =>
      if v == "create" then Some(Create)
      else if v == "submit" then Some(Submit)
      else if v == "delete" then Some(Delete)
      else if v == "invite" then Some(Invite)
      else if v == "accept" then Some(Accept)
      else if v == "reject" then Some(Reject)
      else if v == "review" then Some(Review)
      else if v == "revise" then Some(Revise)
      else None
    case 7 =>
      if v == "authors" then Some(Authors)
      else if v == "publish" then Some(Publish)
      else None
    case 8 =>
      if v == "withdraw" then Some(Withdraw)
      else None
    case 9 =>
      if v == "reviewers" then Some(Reviewers)
      else if v == "formatter" then Some(Formatter)
      else None
    case 10 =>
      if v == "add-author" then Some(AddAuthor)
      else if v == "production" then Some(Production)
      else None
    case 11 =>
      if v == "proofreader" then Some(Proofreader)
      else if v == "publication" then Some(Publication)
      else if v == "send-to-eic" then Some(SendToEic)
      else None
    case 12 =>
      if v == "add-reviewer" then Some(AddReviewer)
      else if v == "update-pages" then Some(UpdatePages)
      else None
    case 13 =>
      if v == "add-reviewers" then Some(AddReviewers)
      else if v == "remove-author" then Some(RemoveAuthor)
      else if v == "remind-author" then Some(RemindAuthor)
      else None
    case 14 =>
      if v == "update-comment" then Some(UpdateComment)
      else None
    case 15 =>
      if v == "remove-reviewer" then Some(RemoveReviewer)
      else if v == "invite-reviewer" then Some(InviteReviewer)
      else if v == "remind-reviewer" then Some(RemindReviewer)
      else if v == "grammar-checked" then Some(GrammarUpdated)
      else if v == "get-proofreader" then Some(GetProofreader)
      else None
    case 16 =>
      if v == "update-formatter" then Some(UpdateFormatter)
      else None
    case 17 =>
      if v == "reinvite-reviewer" then Some(ReinviteReviewer)
      else if v == "update-similarity" then Some(UpdateSimilarity)
      else None
    case 18 =>
      if v == "deny-review-invite" then Some(DenyReviewInvite)
      else if v == "update-proofreader" then Some(UpdateProofreader)
      else None
    case 19 =>
      if v == "add-author-manually" then Some(AddAuthorManually)
      else if v == "send-for-pagination" then Some(SendForPagination)
      else None
    case 20 =>
      if v == "conditionally-accept" then Some(ConditionallyAccept)
      else if v == "invite-more-reviewer" then Some(InviteMoreReviewer)
      else if v == "accept-review-invite" then Some(AcceptReviewInvite)
      else if v == "update-comment-reply" then Some(UpdateCommentReply)
      else None
    case 21 =>
      if v == "add-reviewer-manually" then Some(AddReviewerManually)
      else None
    case 22 =>
      if v == "send-for-grammar-check" then Some(SendForGrammarCheck)
      else None
    case 23 =>
      if v == "assign-associate-editor" then Some(AssignAssociateEditor)
      else if v == "minor-revision-required" then Some(MinorRevision)
      else if v == "major-revision-required" then Some(MajorRevision)
      else None
    case 25 =>
      if v == "send-for-similarity-check" then Some(SendForSimilarityCheck)
      else None
    case _ => None
  }

  /** The case whose label key a string is, if any. */
  function FromLabelKey(k: string): Option<Action>
  {
    if LabelGroup <= k then FromValue(k[|LabelGroup|..]) else None
  }

  /** Cases() lists every case, each at its own position. */
  lemma CasesComplete(x: Action)
    ensures x.Index() < |Cases()| && Cases()[x.Index()] == x
  {
    if x.Index() < 8 {
      Cases0To8(x);
    } else if x.Index() < 16 {
      Cases8To16(x);
    } else if x.Index() < 24 {
      Cases16To24(x);
    } else if x.Index() < 32 {
      Cases24To32(x);
    } else if x.Index() < 40 {
      Cases32To40(x);
    } else {
      Cases40To48(x);
    }
  }

  /** Parsing a stored value gives back the case it came from. */
  lemma FromValueRoundTrip(x: Action)
    ensures FromValue(x.Value()) == Some(x)
  {
    if x.Index() < 4 {
      RoundTrip0To4(x);
    } else if x.Index() < 8 {
      RoundTrip4To8(x);
    } else if x.Index() < 12 {
      RoundTrip8To12(x);
    } else if x.Index() < 16 {
      RoundTrip12To16(x);
    } else if x.Index() < 20 {
      RoundTrip16To20(x);
    } else if x.Index() < 24 {
      RoundTrip20To24(x);
    } else if x.Index() < 28 {
      RoundTrip24To28(x);
    } else if x.Index() < 32 {
      RoundTrip28To32(x);
    } else if x.Index() < 36 {
      RoundTrip32To36(x);
    } else if x.Index() < 40 {
      RoundTrip36To40(x);
    } else if x.Index() < 44 {
      RoundTrip40To44(x);
    } else {
      RoundTrip44To48(x);
    }
  }

  lemma Cases0To8(x: Action)
    requires x.Index() < 8
    ensures x.Index() < |Cases()| && Cases()[x.Index()] == x
  {
  }

  lemma Cases8To16(x: Action)
    requires 8 <= x.Index() && x.Index() < 16
    ensures x.Index() < |Cases()| && Cases()[x.Index()] == x
  {
  }

  lemma Cases16To24(x: Action)
    requires 16 <= x.Index() && x.Index() < 24
    ensures x.Index() < |Cases()| && Cases()[x.Index()] == x
  {
  }

  lemma Cases24To32(x: Action)
    requires 24 <= x.Index() && x.Index() < 32
    ensures x.Index() < |Cases()| && Cases()[x.Index()] == x
  {
  }

  lemma Cases32To40(x: Action)
    requires 32 <= x.Index() && x.Index() < 40
    ensures x.Index() < |Cases()| && Cases()[x.Index()] == x
  {
  }

  lemma Cases40To48(x: Action)
    requires 40 <= x.Index()
    ensures x.Index() < |Cases()| && Cases()[x.Index()] == x
  {
  }

  lemma RoundTrip0To4(x: Action)
    requires x.Index() < 4
    ensures FromValue(x.Value()) == Some(x)
  {
  }

  lemma RoundTrip4To8(x: Action)
    requires 4 <= x.Index() && x.Index() < 8
    ensures FromValue(x.Value()) == Some(x)
  {
  }

  lemma RoundTrip8To12(x: Action)
    requires 8 <= x.Index() && x.Index() < 12
    ensures FromValue(x.Value()) == Some(x)
  {
  }

  lemma RoundTrip12To16(x: Action)
    requires 12 <= x.Index() && x.Index() < 16
    ensures FromValue(x.Value()) == Some(x)
  {
  }

  lemma RoundTrip16To20(x: Action)
    requires 16 <= x.Index() && x.Index() < 20
    ensures FromValue(x.Value()) == Some(x)
  {
  }

  lemma RoundTrip20To24(x: Action)
    requires 20 <= x.Index() && x.Index() < 24
    ensures FromValue(x.Value()) == Some(x)
  {
  }

  lemma RoundTrip24To28(x: Action)
    requires 24 <= x.Index() && x.Index() < 28
    ensures FromValue(x.Value()) == Some(x)
  {
  }

  lemma RoundTrip28To32(x: Action)
    requires 28 <= x.Index() && x.Index() < 32
    ensures FromValue(x.Value()) == Some(x)
  {
  }

  lemma RoundTrip32To36(x: Action)
    requires 32 <= x.Index() && x.Index() < 36
    ensures FromValue(x.Value()) == Some(x)
  {
  }

  lemma RoundTrip36To40(x: Action)
    requires 36 <= x.Index() && x.Index() < 40
    ensures FromValue(x.Value()) == Some(x)
  {
  }

  lemma RoundTrip40To44(x: Action)
    requires 40 <= x.Index() && x.Index() < 44
    ensures FromValue(x.Value()) == Some(x)
  {
  }

  lemma RoundTrip44To48(x: Action)
    requires 44 <= x.Index()
    ensures FromValue(x.Value()) == Some(x)
  {
  }

  /** The backing strings are pairwise distinct. */
  lemma ValuesDistinct(x: Action, y: Action)
    requires x.Value() == y.Value()
    ensures x == y
  {
    FromValueRoundTrip(x);
    FromValueRoundTrip(y);
  }
  /** The case at position i of the declaration sits at index i. */
  lemma CaseIndex(i: nat)
    requires i < 48
    ensures CaseAt(i).Index() == i
  {
  }

  /**
   * `values()` is the value column of `cases()`: it holds exactly the case values, and
   * each entry parses back to the case at the same position.
   */
  lemma ValuesMeaning(v: string)
    ensures v in Values() <==> exists x: Action :: x.Value() == v
    ensures forall i :: 0 <= i < |Values()| ==> FromValue(Values()[i]) == Some(Cases()[i])
  {
    forall i | 0 <= i < |Values()|
      ensures FromValue(Values()[i]) == Some(Cases()[i])
    {
      FromValueRoundTrip(Cases()[i]);
    }
    if x: Action :| x.Value() == v {
      CasesComplete(x);
      assert Values()[x.Index()] == v;
    }
  }


  /** `values()` lists each value once. */
  lemma ValuesListedOnce(i: nat, j: nat)
    requires i < j < |Values()|
    ensures Values()[i] != Values()[j]
  {
    if Values()[i] == Values()[j] {
      ValuesDistinct(Cases()[i], Cases()[j]);
      CaseIndex(i);
      CaseIndex(j);
      assert false;
    }
  }


  /** Different cases have different label keys. */
  lemma LabelKeysDistinct(x: Action, y: Action)
    requires x.LabelKey() == y.LabelKey()
    ensures x == y
  {
  }


  /** GRAMMAR_UPDATED is backed by 'grammar-checked', not by its own name. */
  lemma GrammarUpdatedValue()
    ensures GrammarUpdated.Value() == "grammar-checked"
    ensures FromValue("grammar-updated") == None
  {
  }

  /** No action is backed by 'ready-article': that case is commented out. */
  lemma NoReadyArticleAction(a: Action)
    ensures a.Value() != "ready-article"
    ensures FromValue("ready-article") == None
  {
    FromValueRoundTrip(a);
  }

  /** The two revision actions carry the same strings as the statuses they lead to. */
  lemma RevisionActionsNameStatuses()
    ensures MinorRevision.Value() == StatusEnum.Status.MinorRevision.Value()
    ensures MajorRevision.Value() == StatusEnum.Status.MajorRevision.Value()
  {
  }
}

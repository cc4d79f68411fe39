/** The list views a section can open (the backed enum `Manuscript\Filter`). */
module FilterEnum {
  import opened Wrappers
  import StatusEnum

  datatype Filter =
    | Pending
    | Submitted
    | Withdrawn
    | Deleted
    | Rejected
    | ConditionallyAccepted
    | Accepted
    | Production
    | Publication
    | Published
    | Invite
    | Invited
    | Review
    | Reviewed
    | UnderRevision
    | UnderReview
    | WithAe
    | WithEic
    | UnderSimilarityCheck
    | UnderPagination
    | UnderGrammarCheck
    | ReadyForAccept
    | Formatter
    | Proofreader
    | ReadyArticle
  {
    /** The string the case is backed by. */
    function Value(): string
    {
      match this
      case Pending => "pending"
      case Submitted => "submitted"
      case Withdrawn => "withdrawn"
      case Deleted => "deleted"
      case Rejected => "rejected"
      case ConditionallyAccepted => "conditionally-accepted"
      case Accepted => "accepted"
      case Production => "production"
      case Publication => "publication"
      case Published => "published"
      case Invite => "invite"
      case Invited => "invited"
      case Review => "review"
      case Reviewed => "reviewed"
      case UnderRevision => "under-revision"
      case UnderReview => "under-review"
      case WithAe => "with-ae"
      case WithEic => "with-eic"
      case UnderSimilarityCheck => "under-similarity-check"
      case UnderPagination => "under-pagination"
      case UnderGrammarCheck => "under-grammar-check"
      case ReadyForAccept => "ready-for-accept"
      case Formatter => "formatter"
      case Proofreader => "proofreader"
      case ReadyArticle => "ready-article"
    }

    /** Position of the case in declaration order. */
    function Index(): nat
    {
      match this
      case Pending => 0
      case Submitted => 1
      case Withdrawn => 2
      case Deleted => 3
      case Rejected => 4
      case ConditionallyAccepted => 5
      case Accepted => 6
      case Production => 7
      case Publication => 8
      case Published => 9
      case Invite => 10
      case Invited => 11
      case Review => 12
      case Reviewed => 13
      case UnderRevision => 14
      case UnderReview => 15
      case WithAe => 16
      case WithEic => 17
      case UnderSimilarityCheck => 18
      case UnderPagination => 19
      case UnderGrammarCheck => 20
      case ReadyForAccept => 21
      case Formatter => 22
      case Proofreader => 23
      case ReadyArticle => 24
    }
  }

  /** The case at a position in declaration order. */
  function CaseAt(i: nat): Filter
    requires i < 25
  {
    match i
    case 0 => Pending
    case 1 => Submitted
    case 2 => Withdrawn
    case 3 => Deleted
    case 4 => Rejected
    case 5 => ConditionallyAccepted
    case 6 => Accepted
    case 7 => Production
    case 8 => Publication
    case 9 => Published
    case 10 => Invite
    case 11 => Invited
    case 12 => Review
    case 13 => Reviewed
    case 14 => UnderRevision
    case 15 => UnderReview
    case 16 => WithAe
    case 17 => WithEic
    case 18 => UnderSimilarityCheck
    case 19 => UnderPagination
    case 20 => UnderGrammarCheck
    case 21 => ReadyForAccept
    case 22 => Formatter
    case 23 => Proofreader
    case 24 => ReadyArticle
    case _ => ReadyArticle
  }

  /** Every case in declaration order. */
  function Cases(): (cs: seq<Filter>)
    ensures |cs| == 25
  {
    seq(25, i requires 0 <= i < 25 => CaseAt(i))
  }

  /** `Filter::values()`: the case values in declaration order. */
  function Values(): seq<string>
  {
    seq(|Cases()|, i requires 0 <= i < |Cases()| => Cases()[i].Value())
  }

  /** `Filter::tryFrom($value)`, looking only at the values of the right length. */
  function FromValue(v: string): Option<Filter>
  {
    match |v|
    case 6 =>
      if v == "invite" then Some(Invite)
      else if v == "review" then Some(Review)
      else None
    case 7 =>
      if v == "pending" then Some(Pending)
      else if v == "deleted" then Some(Deleted)
      else if v == "invited" then Some(Invited)
      else if v == "with-ae" then Some(WithAe)
      else None
    case 8 =>
      if v == "rejected" then Some(Rejected)
      else if v == "accepted" then Some(Accepted)
      else if v == "reviewed" then Some(Reviewed)
      else if v == "with-eic" then Some(WithEic)
      else None
    case 9 =>
      if v == "submitted" then Some(Submitted)
      else if v == "withdrawn" then Some(Withdrawn)
      else if v == "published" then Some(Published)
      else if v == "formatter" then Some(Formatter)
      else None
    case 10 =>
      if v == "production" then Some(Production)
      else None
    case 11 =>
      if v == "publication" then Some(Publication)
      else if v == "proofreader" then Some(Proofreader)
      else None
    case 12 =>
      if v == "under-review" then Some(UnderReview)
      else None
    case 13 =>
      if v == "ready-article" then Some(ReadyArticle)
      else None
    case 14 =>
      if v == "under-revision" then Some(UnderRevision)
      else None
    case 16 =>
      if v == "under-pagination" then Some(UnderPagination)
      else if v == "ready-for-accept" then Some(ReadyForAccept)
      else None
    case 19 =>
      if v == "under-grammar-check" then Some(UnderGrammarCheck)
      else None
    case 22 =>
      if v == "conditionally-accepted" then Some(ConditionallyAccepted)
      else if v == "under-similarity-check" then Some(UnderSimilarityCheck)
      else None
    case _ => None
  }

  /** Cases() lists every case, each at its own position. */
  lemma CasesComplete(x: Filter)
    ensures x.Index() < |Cases()| && Cases()[x.Index()] == x
  {
    if x.Index() < 13 {
      Cases0To13(x);
    } else {
      Cases13To25(x);
    }
  }

  /** Parsing a stored value gives back the case it came from. */
  lemma FromValueRoundTrip(x: Filter)
    ensures FromValue(x.Value()) == Some(x)
  {
    if x.Index() < 13 {
      RoundTrip0To13(x);
    } else {
      RoundTrip13To25(x);
    }
  }

  lemma Cases0To13(x: Filter)
    requires x.Index() < 13
    ensures x.Index() < |Cases()| && Cases()[x.Index()] == x
  {
  }

  lemma RoundTrip0To13(x: Filter)
    requires x.Index() < 13
    ensures FromValue(x.Value()) == Some(x)
  {
  }

  lemma Cases13To25(x: Filter)
    requires 13 <= x.Index()
    ensures x.Index() < |Cases()| && Cases()[x.Index()] == x
  {
  }

  lemma RoundTrip13To25(x: Filter)
    requires 13 <= x.Index()
    ensures FromValue(x.Value()) == Some(x)
  {
  }

  /** The backing strings are pairwise distinct. */
  lemma ValuesDistinct(x: Filter, y: Filter)
    requires x.Value() == y.Value()
    ensures x == y
  {
    FromValueRoundTrip(x);
    FromValueRoundTrip(y);
  }
  /** The case at position i of the declaration sits at index i. */
  lemma CaseIndex(i: nat)
    requires i < 25
    ensures CaseAt(i).Index() == i
  {
  }

  /**
   * `values()` is the value column of `cases()`: it holds exactly the case values, and
   * each entry parses back to the case at the same position.
   */
  lemma ValuesMeaning(v: string)
    ensures v in Values() <==> exists x: Filter :: x.Value() == v
    ensures forall i :: 0 <= i < |Values()| ==> FromValue(Values()[i]) == Some(Cases()[i])
  {
    forall i | 0 <= i < |Values()|
      ensures FromValue(Values()[i]) == Some(Cases()[i])
    {
      FromValueRoundTrip(Cases()[i]);
    }
    if x: Filter :| x.Value() == v {
      CasesComplete(x);
      assert Values()[x.Index()] == v;
    }
  }


  /** `values()` lists each value once. */
  lemma ValuesListedOnce(i: nat, j: nat)
    requires i < j < |Values()|
    ensures Values()[i] != Values()[j]
  {
    if Values()[i] == Values()[j] {
      ValuesDistinct(Cases()[i], Cases()[j]);
      CaseIndex(i);
      CaseIndex(j);
      assert false;
    }
  }


  /** Every status except the two revision-required ones has a list filter of the same name. */
  lemma StatusHasFilter(s: StatusEnum.Status)
    ensures FromValue(s.Value()).Some? <==> !s.IsRevisionRequired()
    ensures FromValue(s.Value()).Some? ==> FromValue(s.Value()).value.Value() == s.Value()
  {
    if s.Index() < 8 {
      EarlyStatusHasFilter(s);
    } else {
      LateStatusHasFilter(s);
    }
  }

  lemma EarlyStatusHasFilter(s: StatusEnum.Status)
    requires s.Index() < 8
    ensures FromValue(s.Value()).Some? <==> !s.IsRevisionRequired()
    ensures FromValue(s.Value()).Some? ==> FromValue(s.Value()).value.Value() == s.Value()
  {
  }

  lemma LateStatusHasFilter(s: StatusEnum.Status)
    requires 8 <= s.Index()
    ensures FromValue(s.Value()).Some? <==> !s.IsRevisionRequired()
    ensures FromValue(s.Value()).Some? ==> FromValue(s.Value()).value.Value() == s.Value()
  {
    if s.Index() < 12 {
      MiddleStatusHasFilter(s);
    } else {
      LastStatusHasFilter(s);
    }
  }

  lemma MiddleStatusHasFilter(s: StatusEnum.Status)
    requires 8 <= s.Index() < 12
    ensures FromValue(s.Value()).Some? <==> !s.IsRevisionRequired()
    ensures FromValue(s.Value()).Some? ==> FromValue(s.Value()).value.Value() == s.Value()
  {
  }

  lemma LastStatusHasFilter(s: StatusEnum.Status)
    requires 12 <= s.Index()
    ensures FromValue(s.Value()).Some? <==> !s.IsRevisionRequired()
    ensures FromValue(s.Value()).Some? ==> FromValue(s.Value()).value.Value() == s.Value()
  {
  }

  /** The workflow and stage views, which no status is named after. */
  predicate IsView(f: Filter)
  {
    Invite.Index() <= f.Index() <= ReadyForAccept.Index()
  }

  lemma ViewsHaveNoStatus(f: Filter)
    ensures IsView(f) <==> StatusEnum.FromValue(f.Value()).None?
  {
    if f.Index() < Invite.Index() {
      StatusListsHaveStatus(f);
    } else if IsView(f) {
      ViewHasNoStatus(f);
    } else {
      HandOffListsHaveStatus(f);
    }
  }

  lemma StatusListsHaveStatus(f: Filter)
    requires f.Index() < Invite.Index()
    ensures StatusEnum.FromValue(f.Value()).Some?
  {
  }

  lemma ViewHasNoStatus(f: Filter)
    requires IsView(f)
    ensures StatusEnum.FromValue(f.Value()).None?
  {
  }

  lemma HandOffListsHaveStatus(f: Filter)
    requires ReadyForAccept.Index() < f.Index()
    ensures StatusEnum.FromValue(f.Value()).Some?
  {
  }
}

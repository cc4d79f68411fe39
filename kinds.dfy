/** The kinds of entry a revision's event log holds (the backed enum `Manuscript\Event`). */
module EventEnum {
  import opened Wrappers

  datatype Event =
    | StatusUpdated
  {
    /** The string the case is backed by. */
    function Value(): string
    {
      match this
      case StatusUpdated => "status_updated"
    }

    /** Position of the case in declaration order. */
    function Index(): nat
    {
      match this
      case StatusUpdated => 0
    }
  }

  /** The case at a position in declaration order. */
  function CaseAt(i: nat): Event
    requires i < 1
  {
    match i
    case 0 => StatusUpdated
    case _ => StatusUpdated
  }

  /** Every case in declaration order. */
  function Cases(): (cs: seq<Event>)
    ensures |cs| == 1
  {
    seq(1, i requires 0 <= i < 1 => CaseAt(i))
  }

  /** `Event::values()`: the case values in declaration order. */
  function Values(): seq<string>
  {
    seq(|Cases()|, i requires 0 <= i < |Cases()| => Cases()[i].Value())
  }

  /** `Event::tryFrom($value)`, looking only at the values of the right length. */
  function FromValue(v: string): Option<Event>
  {
    match |v|
    case 14 =>
      if v == "status_updated" then Some(StatusUpdated)
      else None
    case _ => None
  }

  /** Cases() lists every case, each at its own position. */
  lemma CasesComplete(x: Event)
    ensures x.Index() < |Cases()| && Cases()[x.Index()] == x
  {
  }

  /** Parsing a stored value gives back the case it came from. */
  lemma FromValueRoundTrip(x: Event)
    ensures FromValue(x.Value()) == Some(x)
  {
  }

  /** The backing strings are pairwise distinct. */
  lemma ValuesDistinct(x: Event, y: Event)
    requires x.Value() == y.Value()
    ensures x == y
  {
    FromValueRoundTrip(x);
    FromValueRoundTrip(y);
  }
  /** The case at position i of the declaration sits at index i. */
  lemma CaseIndex(i: nat)
    requires i < 1
    ensures CaseAt(i).Index() == i
  {
  }

  /**
   * `values()` is the value column of `cases()`: it holds exactly the case values, and
   * each entry parses back to the case at the same position.
   */
  lemma ValuesMeaning(v: string)
    ensures v in Values() <==> exists x: Event :: x.Value() == v
    ensures forall i :: 0 <= i < |Values()| ==> FromValue(Values()[i]) == Some(Cases()[i])
  {
    forall i | 0 <= i < |Values()|
      ensures FromValue(Values()[i]) == Some(Cases()[i])
    {
      FromValueRoundTrip(Cases()[i]);
    }
    if x: Event :| x.Value() == v {
      CasesComplete(x);
      assert Values()[x.Index()] == v;
    }
  }



}

/** The kinds of manuscript (the backed enum `Manuscript\Type`). */
module TypeEnum {
  import opened Wrappers

  datatype ManuscriptType =
    | Research
    | Review
    | CaseStudy
  {
    /** The string the case is backed by. */
    function Value(): string
    {
      match this
      case Research => "research"
      case Review => "review"
      case CaseStudy => "case-study"
    }

    /** Position of the case in declaration order. */
    function Index(): nat
    {
      match this
      case Research => 0
      case Review => 1
      case CaseStudy => 2
    }
  }

  /** The case at a position in declaration order. */
  function CaseAt(i: nat): ManuscriptType
    requires i < 3
  {
    match i
    case 0 => Research
    case 1 => Review
    case 2 => CaseStudy
    case _ => CaseStudy
  }

  /** Every case in declaration order. */
  function Cases(): (cs: seq<ManuscriptType>)
    ensures |cs| == 3
  {
    seq(3, i requires 0 <= i < 3 => CaseAt(i))
  }

  /** `ManuscriptType::values()`: the case values in declaration order. */
  function Values(): seq<string>
  {
    seq(|Cases()|, i requires 0 <= i < |Cases()| => Cases()[i].Value())
  }

  /** `ManuscriptType::tryFrom($value)`, looking only at the values of the right length. */
  function FromValue(v: string): Option<ManuscriptType>
  {
    match |v|
    case 6 =>
      if v == "review" then Some(Review)
      else None
    case 8 =>
      if v == "research" then Some(Research)
      else None
    case 10 =>
      if v == "case-study" then Some(CaseStudy)
      else None
    case _ => None
  }

  /** Cases() lists every case, each at its own position. */
  lemma CasesComplete(x: ManuscriptType)
    ensures x.Index() < |Cases()| && Cases()[x.Index()] == x
  {
  }

  /** Parsing a stored value gives back the case it came from. */
  lemma FromValueRoundTrip(x: ManuscriptType)
    ensures FromValue(x.Value()) == Some(x)
  {
  }

  /** The backing strings are pairwise distinct. */
  lemma ValuesDistinct(x: ManuscriptType, y: ManuscriptType)
    requires x.Value() == y.Value()
    ensures x == y
  {
    FromValueRoundTrip(x);
    FromValueRoundTrip(y);
  }
  /** The case at position i of the declaration sits at index i. */
  lemma CaseIndex(i: nat)
    requires i < 3
    ensures CaseAt(i).Index() == i
  {
  }

  /**
   * `values()` is the value column of `cases()`: it holds exactly the case values, and
   * each entry parses back to the case at the same position.
   */
  lemma ValuesMeaning(v: string)
    ensures v in Values() <==> exists x: ManuscriptType :: x.Value() == v
    ensures forall i :: 0 <= i < |Values()| ==> FromValue(Values()[i]) == Some(Cases()[i])
  {
    forall i | 0 <= i < |Values()|
      ensures FromValue(Values()[i]) == Some(Cases()[i])
    {
      FromValueRoundTrip(Cases()[i]);
    }
    if x: ManuscriptType :| x.Value() == v {
      CasesComplete(x);
      assert Values()[x.Index()] == v;
    }
  }


  /** `values()` lists each value once. */
  lemma ValuesListedOnce(i: nat, j: nat)
    requires i < j < |Values()|
    ensures Values()[i] != Values()[j]
  {
    if Values()[i] == Values()[j] {
      ValuesDistinct(Cases()[i], Cases()[j]);
      CaseIndex(i);
      CaseIndex(j);
      assert false;
    }
  }

}

/** A reviewer's recommendation (the backed enum `Manuscript\ReviewDecision`). */
module ReviewDecisionEnum {
  import opened Wrappers
  import StatusEnum

  datatype ReviewDecision =
    | Accept
    | MinorRevisionRequired
    | MajorRevisionRequired
    | Reject
  {
    /** The string the case is backed by. */
    function Value(): string
    {
      match this
      case Accept => "accept"
      case MinorRevisionRequired => "minor-revision-required"
      case MajorRevisionRequired => "major-revision-required"
      case Reject => "reject"
    }

    /** Position of the case in declaration order. */
    function Index(): nat
    {
      match this
      case Accept => 0
      case MinorRevisionRequired => 1
      case MajorRevisionRequired => 2
      case Reject => 3
    }
  }

  /** The case at a position in declaration order. */
  function CaseAt(i: nat): ReviewDecision
    requires i < 4
  {
    match i
    case 0 => Accept
    case 1 => MinorRevisionRequired
    case 2 => MajorRevisionRequired
    case 3 => Reject
    case _ => Reject
  }

  /** Every case in declaration order. */
  function Cases(): (cs: seq<ReviewDecision>)
    ensures |cs| == 4
  {
    seq(4, i requires 0 <= i < 4 => CaseAt(i))
  }

  /** `ReviewDecision::values()`: the case values in declaration order. */
  function Values(): seq<string>
  {
    seq(|Cases()|, i requires 0 <= i < |Cases()| => Cases()[i].Value())
  }

  /** `ReviewDecision::tryFrom($value)`, looking only at the values of the right length. */
  function FromValue(v: string): Option<ReviewDecision>
  {
    match |v|
    case 6 =>
      if v == "accept" then Some(Accept)
      else if v == "reject" then Some(Reject)
      else None
    case 23 =>
      if v == "minor-revision-required" then Some(MinorRevisionRequired)
      else if v == "major-revision-required" then Some(MajorRevisionRequired)
      else None
    case _ => None
  }

  /** Cases() lists every case, each at its own position. */
  lemma CasesComplete(x: ReviewDecision)
    ensures x.Index() < |Cases()| && Cases()[x.Index()] == x
  {
  }

  /** Parsing a stored value gives back the case it came from. */
  lemma FromValueRoundTrip(x: ReviewDecision)
    ensures FromValue(x.Value()) == Some(x)
  {
  }

  /** The backing strings are pairwise distinct. */
  lemma ValuesDistinct(x: ReviewDecision, y: ReviewDecision)
    requires x.Value() == y.Value()
    ensures x == y
  {
    FromValueRoundTrip(x);
    FromValueRoundTrip(y);
  }
  /** The case at position i of the declaration sits at index i. */
  lemma CaseIndex(i: nat)
    requires i < 4
    ensures CaseAt(i).Index() == i
  {
  }

  /**
   * `values()` is the value column of `cases()`: it holds exactly the case values, and
   * each entry parses back to the case at the same position.
   */
  lemma ValuesMeaning(v: string)
    ensures v in Values() <==> exists x: ReviewDecision :: x.Value() == v
    ensures forall i :: 0 <= i < |Values()| ==> FromValue(Values()[i]) == Some(Cases()[i])
  {
    forall i | 0 <= i < |Values()|
      ensures FromValue(Values()[i]) == Some(Cases()[i])
    {
      FromValueRoundTrip(Cases()[i]);
    }
    if x: ReviewDecision :| x.Value() == v {
      CasesComplete(x);
      assert Values()[x.Index()] == v;
    }
  }


  /** `values()` lists each value once. */
  lemma ValuesListedOnce(i: nat, j: nat)
    requires i < j < |Values()|
    ensures Values()[i] != Values()[j]
  {
    if Values()[i] == Values()[j] {
      ValuesDistinct(Cases()[i], Cases()[j]);
      CaseIndex(i);
      CaseIndex(j);
      assert false;
    }
  }


  /** The two revision verdicts carry the same strings as the statuses they lead to. */
  lemma RevisionVerdictsNameStatuses()
    ensures MinorRevisionRequired.Value() == StatusEnum.Status.MinorRevision.Value()
    ensures MajorRevisionRequired.Value() == StatusEnum.Status.MajorRevision.Value()
  {
  }
}

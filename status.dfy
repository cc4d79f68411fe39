/** The lifecycle status a revision carries (the backed enum `Manuscript\Status`). */
module StatusEnum {
  import opened Wrappers
  import Text

  /** The translation group of the status labels. */
  const LabelGroup := "manuscript.status."

  datatype Status =
    | Pending
    | Submitted
    | Withdrawn
    | Deleted
    | MinorRevision
    | MajorRevision
    | Rejected
    | ConditionallyAccepted
    | Accepted
    | Production
    | Publication
    | Published
    | Formatter
    | Proofreader
    | ReadyArticle
  {
    /** The string the case is backed by. */
    function Value(): string
    {
      match this
      case Pending => "pending"
      case Submitted => "submitted"
      case Withdrawn => "withdrawn"
      case Deleted => "deleted"
      case MinorRevision => "minor-revision-required"
      case MajorRevision => "major-revision-required"
      case Rejected => "rejected"
      case ConditionallyAccepted => "conditionally-accepted"
      case Accepted => "accepted"
      case Production => "production"
      case Publication => "publication"
      case Published => "published"
      case Formatter => "formatter"
      case Proofreader => "proofreader"
      case ReadyArticle => "ready-article"
    }

    /** Position of the case in declaration order. */
    function Index(): nat
    {
      match this
      case Pending => 0
      case Submitted => 1
      case Withdrawn => 2
      case Deleted => 3
      case MinorRevision => 4
      case MajorRevision => 5
      case Rejected => 6
      case ConditionallyAccepted => 7
      case Accepted => 8
      case Production => 9
      case Publication => 10
      case Published => 11
      case Formatter => 12
      case Proofreader => 13
      case ReadyArticle => 14
    }

    /**
     * The translation key of the case's label, which `label()` and `toArray()` pass to
     * `__()`; reading the key back gives the case.
     */
    function LabelKey(): (k: string)
      ensures FromLabelKey(k) == Some(this)
    {
      FromValueRoundTrip(this);
      Text.TranslationKey(LabelGroup, Value())
    }

    /**
     * `toArray()`, with the translator `__()` as a parameter: exactly the value, which
     * parses back to the case, and the translated label.
     */
    function ToArray(translate: string -> string): (a: map<string, string>)
      ensures a.Keys == {"value", "label"}
      ensures FromValue(a["value"]) == Some(this)
      ensures a["label"] == translate(LabelKey())
    {
      FromValueRoundTrip(this);
      map["value" := Value(), "label" := translate(LabelKey())]
    }

    /** The two statuses that put a manuscript back in the author's hands. */
    predicate IsRevisionRequired()
    {
      this == MinorRevision || this == MajorRevision
    }
  }

  /** The case at a position in declaration order. */
  function CaseAt(i: nat): Status
    requires i < 15
  {
    match i
    case 0 => Pending
    case 1 => Submitted
    case 2 => Withdrawn
    case 3 => Deleted
    case 4 => MinorRevision
    case 5 => MajorRevision
    case 6 => Rejected
    case 7 => ConditionallyAccepted
    case 8 => Accepted
    case 9 => Production
    case 10 => Publication
    case 11 => Published
    case 12 => Formatter
    case 13 => Proofreader
    case 14 => ReadyArticle
    case _ => ReadyArticle
  }

  /** Every case in declaration order. */
  function Cases(): (cs: seq<Status>)
    ensures |cs| == 15
  {
    seq(15, i requires 0 <= i < 15 => CaseAt(i))
  }

  /** `Status::values()`: the case values in declaration order. */
  function Values(): seq<string>
  {
    seq(|Cases()|, i requires 0 <= i < |Cases()| => Cases()[i].Value())
  }

  /** `Status::tryFrom($value)`, looking only at the values of the right length. */
  function FromValue(v: string): Option<Status>
  {
    match |v|
    case 7 =>
      if v == "pending" then Some(Pending)
      else if v == "deleted" then Some(Deleted)
      else None
    case 8 =>
      if v == "rejected" then Some(Rejected)
      else if v == "accepted" then Some(Accepted)
      else None
    case 9 =>
      if v == "submitted" then Some(Submitted)
      else if v == "withdrawn" then Some(Withdrawn)
      else if v == "published" then Some(Published)
      else if v == "formatter" then Some(Formatter)
      else None
    case 10 =>
      if v == "production" then Some(Production)
      else None
    case 11 =>
      if v == "publication" then Some(Publication)
      else if v == "proofreader" then Some(Proofreader)
      else None
    case 13 =>
      if v == "ready-article" then Some(ReadyArticle)
      else None
    case 22 =>
      if v == "conditionally-accepted" then Some(ConditionallyAccepted)
      else None
    case 23 =>
      if v == "minor-revision-required" then Some(MinorRevision)
      else if v == "major-revision-required" then Some(MajorRevision)
      else None
    case _ => None
  }

  /** The case whose label key a string is, if any. */
  function FromLabelKey(k: string): Option<Status>
  {
    if LabelGroup <= k then FromValue(k[|LabelGroup|..]) else None
  }

  /** Cases() lists every case, each at its own position. */
  lemma CasesComplete(x: Status)
    ensures x.Index() < |Cases()| && Cases()[x.Index()] == x
  {
    if x.Index() < 8 {
      Cases0To8(x);
    } else {
      Cases8To15(x);
    }
  }

  /** Parsing a stored value gives back the case it came from. */
  lemma FromValueRoundTrip(x: Status)
    ensures FromValue(x.Value()) == Some(x)
  {
    if x.Index() < 8 {
      RoundTrip0To8(x);
    } else {
      RoundTrip8To15(x);
    }
  }

  lemma Cases0To8(x: Status)
    requires x.Index() < 8
    ensures x.Index() < |Cases()| && Cases()[x.Index()] == x
  {
  }

  lemma RoundTrip0To8(x: Status)
    requires x.Index() < 8
    ensures FromValue(x.Value()) == Some(x)
  {
  }

  lemma Cases8To15(x: Status)
    requires 8 <= x.Index()
    ensures x.Index() < |Cases()| && Cases()[x.Index()] == x
  {
  }

  lemma RoundTrip8To15(x: Status)
    requires 8 <= x.Index()
    ensures FromValue(x.Value()) == Some(x)
  {
  }

  /** The backing strings are pairwise distinct. */
  lemma ValuesDistinct(x: Status, y: Status)
    requires x.Value() == y.Value()
    ensures x == y
  {
    FromValueRoundTrip(x);
    FromValueRoundTrip(y);
  }
  /** The case at position i of the declaration sits at index i. */
  lemma CaseIndex(i: nat)
    requires i < 15
    ensures CaseAt(i).Index() == i
  {
  }

  /**
   * `values()` is the value column of `cases()`: it holds exactly the case values, and
   * each entry parses back to the case at the same position.
   */
  lemma ValuesMeaning(v: string)
    ensures v in Values() <==> exists x: Status :: x.Value() == v
    ensures forall i :: 0 <= i < |Values()| ==> FromValue(Values()[i]) == Some(Cases()[i])
  {
    forall i | 0 <= i < |Values()|
      ensures FromValue(Values()[i]) == Some(Cases()[i])
    {
      FromValueRoundTrip(Cases()[i]);
    }
    if x: Status :| x.Value() == v {
      CasesComplete(x);
      assert Values()[x.Index()] == v;
    }
  }


  /** `values()` lists each value once. */
  lemma ValuesListedOnce(i: nat, j: nat)
    requires i < j < |Values()|
    ensures Values()[i] != Values()[j]
  {
    if Values()[i] == Values()[j] {
      ValuesDistinct(Cases()[i], Cases()[j]);
      CaseIndex(i);
      CaseIndex(j);
      assert false;
    }
  }


  /** Different cases have different label keys. */
  lemma LabelKeysDistinct(x: Status, y: Status)
    requires x.LabelKey() == y.LabelKey()
    ensures x == y
  {
  }}

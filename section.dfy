/** The role a user works under (the backed enum `Section`) and the navigation menu of each role. */
module SectionEnum {
  import opened Wrappers
  import Text

  /** The translation group of the section labels. */
  const LabelGroup := "section."
  import ActionEnum
  import FilterEnum

  datatype Section =
    | Admin
    | Author
    | Reviewer
    | AssociateEditor
    | EditorInChief
    | Epm
    | Formatter
    | Proofreader
    | ReadyArticle
  {
    /** The string the case is backed by. */
    function Value(): string
    {
      match this
      case Admin => "admin"
      case Author => "author"
      case Reviewer => "reviewer"
      case AssociateEditor => "associate-editor"
      case EditorInChief => "editor-in-chief"
      case Epm => "epm"
      case Formatter => "formatter"
      case Proofreader => "proofreader"
      case ReadyArticle => "ready-article"
    }

    /** Position of the case in declaration order. */
    function Index(): nat
    {
      match this
      case Admin => 0
      case Author => 1
      case Reviewer => 2
      case AssociateEditor => 3
      case EditorInChief => 4
      case Epm => 5
      case Formatter => 6
      case Proofreader => 7
      case ReadyArticle => 8
    }

    /**
     * The translation key of the case's label, which `label()` passes to `__()`; reading
     * the key back gives the case.
     */
    function LabelKey(): (k: string)
      ensures FromLabelKey(k) == Some(this)
    {
      FromValueRoundTrip(this);
      Text.TranslationKey(LabelGroup, Value())
    }

    /**
     * `toArray()`, with the translator `__()` as a parameter: exactly the value, which
     * parses back to the case, and the translated label.
     */
    function ToArray(translate: string -> string): (a: map<string, string>)
      ensures a.Keys == {"value", "label"}
      ensures FromValue(a["value"]) == Some(this)
      ensures a["label"] == translate(LabelKey())
    {
      FromValueRoundTrip(this);
      map["value" := Value(), "label" := translate(LabelKey())]
    }
  }

  /** The case at a position in declaration order. */
  function CaseAt(i: nat): Section
    requires i < 9
  {
    match i
    case 0 => Admin
    case 1 => Author
    case 2 => Reviewer
    case 3 => AssociateEditor
    case 4 => EditorInChief
    case 5 => Epm
    case 6 => Formatter
    case 7 => Proofreader
    case 8 => ReadyArticle
    case _ => ReadyArticle
  }

  /** Every case in declaration order. */
  function Cases(): (cs: seq<Section>)
    ensures |cs| == 9
  {
    seq(9, i requires 0 <= i < 9 => CaseAt(i))
  }

  /** `Section::values()`: the case values in declaration order. */
  function Values(): seq<string>
  {
    seq(|Cases()|, i requires 0 <= i < |Cases()| => Cases()[i].Value())
  }

  /** `Section::tryFrom($value)`, looking only at the values of the right length. */
  function FromValue(v: string): Option<Section>
  {
    match |v|
    case 3 =>
      if v == "epm" then Some(Epm)
      else None
    case 5 =>
      if v == "admin" then Some(Admin)
      else None
    case 6 =>
      if v == "author" then Some(Author)
      else None
    case 8 =>
      if v == "reviewer" then Some(Reviewer)
      else None
    case 9 =>
      if v == "formatter" then Some(Formatter)
      else None
    case 11 =>
      if v == "proofreader" then Some(Proofreader)
      else None
    case 13 =>
      if v == "ready-article" then Some(ReadyArticle)
      else None
    case 15 =>
      if v == "editor-in-chief" then Some(EditorInChief)
      else None
    case 16 =>
      if v == "associate-editor" then Some(AssociateEditor)
      else None
    case _ => None
  }

  /** The case whose label key a string is, if any. */
  function FromLabelKey(k: string): Option<Section>
  {
    if LabelGroup <= k then FromValue(k[|LabelGroup|..]) else None
  }

  /** Cases() lists every case, each at its own position. */
  lemma CasesComplete(x: Section)
    ensures x.Index() < |Cases()| && Cases()[x.Index()] == x
  {
  }

  /** Parsing a stored value gives back the case it came from. */
  lemma FromValueRoundTrip(x: Section)
    ensures FromValue(x.Value()) == Some(x)
  {
  }

  /** The backing strings are pairwise distinct. */
  lemma ValuesDistinct(x: Section, y: Section)
    requires x.Value() == y.Value()
    ensures x == y
  {
    FromValueRoundTrip(x);
    FromValueRoundTrip(y);
  }
  /** The case at position i of the declaration sits at index i. */
  lemma CaseIndex(i: nat)
    requires i < 9
    ensures CaseAt(i).Index() == i
  {
  }

  /**
   * `values()` is the value column of `cases()`: it holds exactly the case values, and
   * each entry parses back to the case at the same position.
   */
  lemma ValuesMeaning(v: string)
    ensures v in Values() <==> exists x: Section :: x.Value() == v
    ensures forall i :: 0 <= i < |Values()| ==> FromValue(Values()[i]) == Some(Cases()[i])
  {
    forall i | 0 <= i < |Values()|
      ensures FromValue(Values()[i]) == Some(Cases()[i])
    {
      FromValueRoundTrip(Cases()[i]);
    }
    if x: Section :| x.Value() == v {
      CasesComplete(x);
      assert Values()[x.Index()] == v;
    }
  }


  /** `values()` lists each value once. */
  lemma ValuesListedOnce(i: nat, j: nat)
    requires i < j < |Values()|
    ensures Values()[i] != Values()[j]
  {
    if Values()[i] == Values()[j] {
      ValuesDistinct(Cases()[i], Cases()[j]);
      CaseIndex(i);
      CaseIndex(j);
      assert false;
    }
  }


  /** Different cases have different label keys. */
  lemma LabelKeysDistinct(x: Section, y: Section)
    requires x.LabelKey() == y.LabelKey()
    ensures x == y
  {
  }


  /** Where a menu item links to: a named route, optionally with an action or a list filter. */
  datatype Route =
    | Plain(name: string)
    | WithAction(name: string, action: ActionEnum.Action)
    | WithFilter(name: string, filter: FilterEnum.Filter)

  /** One navigation entry; the permission each entry is guarded by is not part of this model. */
  datatype MenuItem = Item(title: string, route: Route)

  /** The entries that open something other than a manuscript list, shown first. */
  function LeadingItems(s: Section): seq<MenuItem>
  {
    match s
    case Admin =>
      [Item("Authors", Plain("authors.index")), Item("Roles", Plain("roles.index"))]
    case Author =>
      [Item("Submit New Manuscript", WithAction("manuscripts.edit", ActionEnum.Create))]
    case _ => []
  }

  /** The list filters of the section's menu, in display order. */
  function MenuFilters(s: Section): seq<FilterEnum.Filter>
  {
    match s
    case Author =>
      [FilterEnum.Submitted, FilterEnum.Pending, FilterEnum.UnderReview,
       FilterEnum.UnderRevision, FilterEnum.ConditionallyAccepted, FilterEnum.Accepted,
       FilterEnum.Production, FilterEnum.Publication, FilterEnum.Published,
       FilterEnum.Rejected, FilterEnum.Withdrawn, FilterEnum.Deleted]
    case Reviewer =>
      [FilterEnum.Review, FilterEnum.Reviewed]
    case AssociateEditor =>
      [FilterEnum.Invite, FilterEnum.Invited, FilterEnum.Reviewed, FilterEnum.WithEic,
       FilterEnum.UnderRevision, FilterEnum.ConditionallyAccepted, FilterEnum.Accepted,
       FilterEnum.Production, FilterEnum.Publication, FilterEnum.Published,
       FilterEnum.Rejected, FilterEnum.Withdrawn]
    case EditorInChief =>
      [FilterEnum.Submitted, FilterEnum.WithAe, FilterEnum.UnderRevision, FilterEnum.WithEic,
       FilterEnum.ConditionallyAccepted, FilterEnum.UnderSimilarityCheck,
       FilterEnum.UnderPagination, FilterEnum.UnderGrammarCheck, FilterEnum.ReadyForAccept,
       FilterEnum.Accepted, FilterEnum.Production, FilterEnum.Formatter,
       FilterEnum.Proofreader, FilterEnum.ReadyArticle, FilterEnum.Publication,
       FilterEnum.Published, FilterEnum.Rejected, FilterEnum.Withdrawn, FilterEnum.Pending,
       FilterEnum.Deleted]
    case Epm =>
      [FilterEnum.UnderSimilarityCheck, FilterEnum.UnderPagination,
       FilterEnum.UnderGrammarCheck]
    case Formatter =>
      [FilterEnum.Formatter]
    case Proofreader =>
      [FilterEnum.Proofreader]
    case _ => []
  }

  /** The titles of those list entries, in the same order. */
  function MenuTitles(s: Section): (titles: seq<string>)
    ensures |titles| == |MenuFilters(s)|
  {
    match s
    case Author =>
      ["Submissions Completed", "Incomplete Submissions", "Under Review", "Under Revision",
       "Conditionally Accepted", "Accepted Manuscripts", "In Production", "To Publication",
       "Published Manuscripts", "Rejected Manuscripts", "Withdrawn Manuscripts",
       "Deleted Manuscripts"]
    case Reviewer =>
      ["Review Manuscripts", "Review Completed"]
    case AssociateEditor =>
      ["Invite Reviewers", "Under Review Manuscripts", "Reviews Completed Send to EIC",
       "With EIC", "Under Revision", "Conditionally Accepted", "Accepted Manuscripts",
       "In Production", "To Publication", "Published Manuscripts", "Rejected Manuscripts",
       "Withdrawn Manuscripts"]
    case EditorInChief =>
      ["New Submission", "With Associate Editor", "Under Revision", "Ready for EIC Decision",
       "Conditionally Accepted", "Under Similarity Check", "Under Pagination",
       "Under Grammar Check", "Ready For Accept", "Accepted Manuscripts", "In Production",
       "Formatter", "Proof Read", "Ready Article", "To Publication", "Published Manuscripts",
       "Rejected Manuscripts", "Withdrawn Manuscripts", "Un-Submitted", "Deleted Manuscripts"]
    case Epm =>
      ["Under Similarity Check", "Under Pagination", "Under Grammar Check"]
    case Formatter =>
      ["Format Article"]
    case Proofreader =>
      ["Proof Read Article"]
    case _ => []
  }

  /** The route every list entry of the section opens. */
  function ListRoute(s: Section): string
  {
    if s == Formatter then "formatter.index"
    else if s == Proofreader then "proofreader.index"
    else "manuscripts.index"
  }

  /** The leading entries never open a manuscript list. */
  lemma LeadingItemsOpenNoList(s: Section, i: nat)
    requires i < |LeadingItems(s)|
    ensures !LeadingItems(s)[i].route.WithFilter?
  {
  }

  lemma LeadingItemsOpenNoLists(s: Section)
    ensures forall i :: 0 <= i < |LeadingItems(s)| ==> !LeadingItems(s)[i].route.WithFilter?
  {
  }

  /** `Section::items()`: the navigation menu of a section, in display order. */
  function Items(s: Section): (items: seq<MenuItem>)
    ensures |items| == |LeadingItems(s)| + |MenuFilters(s)|
    ensures items[..|LeadingItems(s)|] == LeadingItems(s)
    ensures forall i :: 0 <= i < |MenuFilters(s)| ==>
      items[|LeadingItems(s)| + i] == Item(MenuTitles(s)[i], WithFilter(ListRoute(s), MenuFilters(s)[i]))
  {
    Menu(LeadingItems(s), MenuTitles(s), MenuFilters(s), ListRoute(s))
  }

  /** A menu laid out as the leading entries followed by one titled entry per list filter. */
  function Menu(lead: seq<MenuItem>, titles: seq<string>, filters: seq<FilterEnum.Filter>, route: string): (items: seq<MenuItem>)
    requires |titles| == |filters|
    ensures |items| == |lead| + |filters|
    ensures items[..|lead|] == lead
    ensures forall i :: 0 <= i < |filters| ==> items[|lead| + i] == Item(titles[i], WithFilter(route, filters[i]))
  {
    lead + seq(|filters|, i requires 0 <= i < |filters| => Item(titles[i], WithFilter(route, filters[i])))
  }

  /** Some entry of `items` opens the list `f` on `route`. */
  predicate OpensOn(items: seq<MenuItem>, route: string, f: FilterEnum.Filter)
  {
    exists i :: 0 <= i < |items| && items[i].route == WithFilter(route, f)
  }

  /** Some entry of the section's menu opens the list `f` on the section's list route. */
  predicate OpensList(s: Section, f: FilterEnum.Filter)
  {
    OpensOn(Items(s), ListRoute(s), f)
  }

  /** The menu opens exactly the lists of its list filters; the leading entries open none. */
  lemma OpensListMeaning(s: Section, f: FilterEnum.Filter)
    ensures OpensList(s, f) <==> f in MenuFilters(s)
  {
    LeadingItemsOpenNoLists(s);
    EntriesOpenLists(LeadingItems(s), MenuTitles(s), MenuFilters(s), ListRoute(s), f);
  }

  /** Entries that open no list, followed by one entry per filter, open exactly those filters' lists. */
  lemma EntriesOpenLists(lead: seq<MenuItem>, titles: seq<string>, filters: seq<FilterEnum.Filter>,
                         route: string, f: FilterEnum.Filter)
    requires |titles| == |filters|
    requires forall i :: 0 <= i < |lead| ==> !lead[i].route.WithFilter?
    ensures OpensOn(Menu(lead, titles, filters, route), route, f) <==> f in filters
  {
    var items := Menu(lead, titles, filters, route);
    if OpensOn(items, route, f) {
      var i :| 0 <= i < |items| && items[i].route == WithFilter(route, f);
      EntryOpensListed(lead, titles, filters, route, i);
    }
    if f in filters {
      var k :| 0 <= k < |filters| && filters[k] == f;
      assert items[|lead| + k].route == WithFilter(route, f);
    }
  }

  /** Every list a laid-out menu opens is one of its filters. */
  lemma EntryOpensListed(lead: seq<MenuItem>, titles: seq<string>, filters: seq<FilterEnum.Filter>,
                         route: string, i: int)
    requires |titles| == |filters|
    requires forall i :: 0 <= i < |lead| ==> !lead[i].route.WithFilter?
    requires 0 <= i < |Menu(lead, titles, filters, route)|
    requires Menu(lead, titles, filters, route)[i].route.WithFilter?
    ensures Menu(lead, titles, filters, route)[i].route.filter in filters
  {
    var items, n := Menu(lead, titles, filters, route), |lead|;
    if i < n {
      assert false;
    }
    var k := i - n;
    assert items[n + k].route.filter == filters[k];
  }

  /** The reviewer menu offers the two review lists and nothing else. */
  lemma ReviewerMenu(f: FilterEnum.Filter)
    ensures LeadingItems(Reviewer) == []
    ensures f in MenuFilters(Reviewer) <==> f == FilterEnum.Review || f == FilterEnum.Reviewed
  {
  }

  /** Its menu entries open exactly those two lists. */
  lemma ReviewerMenuItems(f: FilterEnum.Filter)
    ensures OpensList(Reviewer, f) <==> f == FilterEnum.Review || f == FilterEnum.Reviewed
  {
    ReviewerMenu(f);
    OpensListMeaning(Reviewer, f);
  }

  /** The production-manager menu offers exactly the three stage lists. */
  lemma EpmMenu(f: FilterEnum.Filter)
    ensures LeadingItems(Epm) == [] && |MenuFilters(Epm)| == 3
    ensures f in MenuFilters(Epm) <==>
      f == FilterEnum.UnderSimilarityCheck || f == FilterEnum.UnderPagination || f == FilterEnum.UnderGrammarCheck
  {
  }

  /** Its menu has three entries, which open exactly those lists. */
  lemma EpmMenuItems(f: FilterEnum.Filter)
    ensures |Items(Epm)| == 3
    ensures OpensList(Epm, f) <==>
      f == FilterEnum.UnderSimilarityCheck || f == FilterEnum.UnderPagination || f == FilterEnum.UnderGrammarCheck
  {
    EpmMenu(f);
    OpensListMeaning(Epm, f);
  }

  /** The editor-in-chief menu runs from "New Submission" to "Deleted Manuscripts" and covers every list except the five reviewer-side views. */
  lemma EditorInChiefMenu(f: FilterEnum.Filter)
    ensures |MenuFilters(EditorInChief)| == 20
    ensures MenuTitles(EditorInChief)[0] == "New Submission" && MenuFilters(EditorInChief)[0] == FilterEnum.Submitted
    ensures MenuTitles(EditorInChief)[19] == "Deleted Manuscripts" && MenuFilters(EditorInChief)[19] == FilterEnum.Deleted
    ensures f in MenuFilters(EditorInChief) <==> !IsReviewerSideView(f)
  {
    if IsReviewerSideView(f) {
      EditorInChiefMenuOmits(f);
    }
  }

  /** Its menu has twenty entries, and they open every list but the five reviewer-side views. */
  lemma EditorInChiefMenuItems(f: FilterEnum.Filter)
    ensures |Items(EditorInChief)| == 20
    ensures OpensList(EditorInChief, f) <==> !IsReviewerSideView(f)
  {
    EditorInChiefMenu(f);
    OpensListMeaning(EditorInChief, f);
  }

  /** The five lists only the reviewing side works from. */
  predicate IsReviewerSideView(f: FilterEnum.Filter)
  {
    f == FilterEnum.Invite || f == FilterEnum.Invited || f == FilterEnum.Review || f == FilterEnum.Reviewed || f == FilterEnum.UnderReview
  }

  lemma EditorInChiefMenuOmits(f: FilterEnum.Filter)
    requires IsReviewerSideView(f)
    ensures f !in MenuFilters(EditorInChief)
  {
  }

  /** Formatter and proofreader each get one entry, routed to their own queue. */
  lemma HandOffMenus()
    ensures Items(Formatter) == [Item("Format Article", WithFilter("formatter.index", FilterEnum.Formatter))]
    ensures Items(Proofreader) == [Item("Proof Read Article", WithFilter("proofreader.index", FilterEnum.Proofreader))]
  {
  }

  /** A section the menu table has no case for, such as ready-article, gets an empty menu; the admin menu links no list. */
  lemma MenuWithoutLists()
    ensures Items(ReadyArticle) == []
    ensures MenuFilters(Admin) == [] && |Items(Admin)| == 2
  {
  }


}

/**
 * The dashboard figures: the count of manuscripts per status bucket of their current
 * revision, with the two revision-required statuses counted together and the statuses a
 * role may see, and the twelve-month series of new manuscripts and authors.
 */
module Dashboard {
  import opened Wrappers
  import opened Text
  import opened StatusEnum
  import SectionEnum

  /** Authors and reviewers get the reduced dashboard. */
  predicate ReducedView(section: SectionEnum.Section)
  {
    section == SectionEnum.Author || section == SectionEnum.Reviewer
  }

  /** The statuses whose manuscripts a role sees counted. */
  predicate Counted(section: SectionEnum.Section, s: Status)
    ensures s == Deleted || s == Withdrawn ==> !Counted(section, s)
    ensures ReducedView(section) && (s == Rejected || s == MinorRevision || s == MajorRevision) ==> !Counted(section, s)
    ensures !ReducedView(section) && s != Deleted && s != Withdrawn ==> Counted(section, s)
  {
    if ReducedView(section) then
      s in {Pending, Submitted, ConditionallyAccepted, Accepted, Production, Publication, Published, Formatter, Proofreader}
    else
      s !in {Deleted, Withdrawn}
  }

  /** The bucket a status is counted in: both revision-required statuses share one. */
  function Bucket(s: Status): (b: string)
    ensures s != MajorRevision && s != MinorRevision ==> FromValue(b) == Some(s)
    ensures s == MajorRevision || s == MinorRevision ==> FromValue(b) == None
  {
    FromValueRoundTrip(s);
    if s == MajorRevision || s == MinorRevision then "revision-required" else s.Value()
  }

  /** The delimiters after which `ucwords` upper-cases a letter. */
  predicate WordDelimiter(c: char)
  {
    c == ' ' || c == '\t' || c == '\r' || c == '\n' || c == '\U{000C}' || c == '\U{000B}'
  }

  function Upper(c: char): char
  {
    if 'a' <= c <= 'z' then (c as int - 32) as char else c
  }

  function Lower(c: char): char
  {
    if 'A' <= c <= 'Z' then (c as int + 32) as char else c
  }

  /** `ucwords`: the first character and every character after a delimiter upper-cased. */
  function UcWords(s: string): string
  {
    seq(|s|, i requires 0 <= i < |s| => if i == 0 || WordDelimiter(s[i - 1]) then Upper(s[i]) else s[i])
  }

  /** The name a bucket is shown under: '-' as a blank, each word capitalised. */
  function DisplayName(bucket: string): string
  {
    UcWords(ReplaceAll(bucket, "-", " "))
  }

  /** Reading a shown name back: blanks as '-', capitals as lower case. */
  function Undisplay(name: string): string
  {
    seq(|name|, i requires 0 <= i < |name| => if name[i] == ' ' then '-' else Lower(name[i]))
  }

  /** A bucket name: lower-case letters and '-'. */
  predicate Slug(s: string)
  {
    forall i :: 0 <= i < |s| ==> ('a' <= s[i] <= 'z') || s[i] == '-'
  }

  /** The shown name of a bucket reads back as the bucket, so no two buckets share a shown name. */
  lemma DisplayNameRoundTrip(bucket: string)
    requires Slug(bucket)
    ensures Undisplay(DisplayName(bucket)) == bucket
  {
    var spaced := ReplaceAll(bucket, "-", " ");
    forall i | 0 <= i < |bucket|
      ensures |spaced| == |bucket| && spaced[i] == if bucket[i] == '-' then ' ' else bucket[i]
    {
      ReplaceCharAt(bucket, '-', ' ', i);
    }
    if |bucket| == 0 {
      assert spaced == bucket;
    }
  }

  lemma DisplayNamesDiffer(a: string, b: string)
    requires Slug(a) && Slug(b) && a != b
    ensures DisplayName(a) != DisplayName(b)
  {
    DisplayNameRoundTrip(a);
    DisplayNameRoundTrip(b);
  }

  /**
   * `manuscriptCountByStatus`: for each manuscript, the status of its current revision (none
   * when it has no current revision, which never counts); the count of a bucket is the
   * number of manuscripts whose status the role sees and that falls in the bucket. The
   * bucket is shown under `DisplayName(bucket)`.
   */
  function CountUnder(section: SectionEnum.Section, current: seq<Option<Status>>, bucket: string): (n: nat)
    ensures n <= |current|
  {
    if |current| == 0 then 0
    else
      var s := current[0];
      (if s.Some? && Counted(section, s.value) && Bucket(s.value) == bucket then 1 else 0)
      + CountUnder(section, current[1..], bucket)
  }

  /** How many manuscripts are currently in status `s`. */
  function CountStatus(current: seq<Option<Status>>, s: Status): nat
  {
    if |current| == 0 then 0 else (if current[0] == Some(s) then 1 else 0) + CountStatus(current[1..], s)
  }

  lemma EarlyBucketSlugs()
    ensures Slug("pending") && Slug("submitted") && Slug("withdrawn") && Slug("deleted")
    ensures Slug("revision-required") && Slug("rejected")
  {
  }

  lemma LateBucketSlugs()
    ensures Slug("conditionally-accepted") && Slug("accepted") && Slug("production") && Slug("publication")
    ensures Slug("published") && Slug("formatter") && Slug("proofreader") && Slug("ready-article")
  {
  }

  /** Every bucket name is lower-case letters and '-', so the shown names of different buckets differ. */
  lemma BucketSlugs(s: Status)
    ensures Slug(Bucket(s))
  {
    EarlyBucketSlugs();
    LateBucketSlugs();
  }

  /** The two revision-required statuses are counted together, in the bucket "revision-required". */
  lemma {:induction false} RevisionRequiredMerged(section: SectionEnum.Section, current: seq<Option<Status>>)
    requires !ReducedView(section)
    ensures CountUnder(section, current, "revision-required")
         == CountStatus(current, MinorRevision) + CountStatus(current, MajorRevision)
  {
    if |current| > 0 {
      RevisionRequiredMerged(section, current[1..]);
    }
  }

  /** A status a role does not see adds nothing to any of that role's counts. */
  lemma {:induction false} HiddenStatusesIgnored(section: SectionEnum.Section, current: seq<Option<Status>>, i: nat, s: Status, name: string)
    requires i < |current| && !Counted(section, s)
    ensures CountUnder(section, current[i := Some(s)], name) == CountUnder(section, current[i := None], name)
  {
    if i > 0 {
      HiddenStatusesIgnored(section, current[1..], i - 1, s, name);
      assert current[i := Some(s)][1..] == current[1..][i - 1 := Some(s)];
      assert current[i := None][1..] == current[1..][i - 1 := None];
    } else {
      assert current[0 := Some(s)][1..] == current[1..];
      assert current[0 := None][1..] == current[1..];
    }
  }

  /** Only the two revision-required statuses share a bucket: any other status has its value as a bucket of its own. */
  lemma BucketsSeparate(s: Status, t: Status)
    requires s != MinorRevision && s != MajorRevision
    ensures Bucket(t) == Bucket(s) <==> t == s
  {
    if Bucket(t) == Bucket(s) && t != s {
      if t == MinorRevision || t == MajorRevision {
        FromValueRoundTrip(s);
      } else {
        ValuesDistinct(s, t);
      }
      assert false;
    }
  }

  /** The count under the bucket of a status that is counted and not revision-required is the number of manuscripts in that status. */
  lemma {:induction false} CountUnderOwnBucket(section: SectionEnum.Section, current: seq<Option<Status>>, s: Status)
    requires Counted(section, s) && s != MinorRevision && s != MajorRevision
    ensures CountUnder(section, current, Bucket(s)) == CountStatus(current, s)
  {
    if |current| > 0 {
      CountUnderOwnBucket(section, current[1..], s);
      if current[0].Some? {
        BucketsSeparate(s, current[0].value);
      }
    }
  }

  /** A name that is no status's bucket counts nothing. */
  lemma {:induction false} CountUnderOtherNames(section: SectionEnum.Section, current: seq<Option<Status>>, name: string)
    requires forall s: Status :: Bucket(s) != name
    ensures CountUnder(section, current, name) == 0
  {
    if |current| > 0 {
      CountUnderOtherNames(section, current[1..], name);
    }
  }

  /** Authors and reviewers never see rejected, revision-required or withdrawn manuscripts counted; other roles never see deleted or withdrawn ones. */
  lemma CountedByRole(section: SectionEnum.Section)
    ensures ReducedView(section) ==> !Counted(section, Rejected) && !Counted(section, MinorRevision) && !Counted(section, Withdrawn)
    ensures !ReducedView(section) ==> (forall s: Status :: Counted(section, s) <==> s != Deleted && s != Withdrawn)
  {
  }

  // ---- the twelve-month series ----

  /** A calendar date, as `Carbon::now()` gives it. */
  datatype Date = Date(year: nat, month: nat, day: nat)

  predicate ValidDate(d: Date)
  {
    d.year >= 1 && 1 <= d.month <= 12 && 1 <= d.day <= DaysIn(d.year, d.month)
  }

  /** A calendar month, the key `DATE_FORMAT(created_at, '%Y-%m')` groups by. */
  datatype Month = Month(year: nat, month: nat)

  predicate IsLeap(year: nat)
  {
    (year % 4 == 0 && year % 100 != 0) || year % 400 == 0
  }

  function DaysIn(year: nat, month: nat): nat
  {
    if month == 2 then (if IsLeap(year) then 29 else 28)
    else if month == 4 || month == 6 || month == 9 || month == 11 then 30
    else 31
  }

  /** Months counted from the start of year 0. */
  function Ordinal(m: Month): int
  {
    m.year * 12 + m.month - 1
  }

  function FromOrdinal(o: nat): (m: Month)
    ensures 1 <= m.month <= 12 && Ordinal(m) == o
  {
    Month(o / 12, o % 12 + 1)
  }

  /** The month `i` months before the month of `d`, day ignored. */
  function MonthsBefore(d: Date, i: nat): (m: Month)
    requires ValidDate(d) && i <= 11
    ensures 1 <= m.month <= 12 && Ordinal(m) == Ordinal(Month(d.year, d.month)) - i
  {
    FromOrdinal(Ordinal(Month(d.year, d.month)) - i)
  }

  function Next(m: Month): Month
    requires 1 <= m.month <= 12
  {
    if m.month == 12 then Month(m.year + 1, 1) else Month(m.year, m.month + 1)
  }

  /**
   * The month of `Carbon::now()->subMonths(i)` as written: the day is kept, and when the
   * target month is too short for it the date overflows into the following month.
   */
  function SubMonthsAsWritten(d: Date, i: nat): (m: Month)
    requires ValidDate(d) && i <= 11
    ensures d.day <= 28 ==> m == MonthsBefore(d, i)
    ensures Ordinal(MonthsBefore(d, i)) <= Ordinal(m) <= Ordinal(MonthsBefore(d, i)) + 1
  {
    var target := MonthsBefore(d, i);
    if d.day <= DaysIn(target.year, target.month) then target else Next(target)
  }

  /** On 31 March 2024 the slot for February falls in March, so March is listed twice and February never. */
  lemma MarchThirtyFirstAsWritten()
    ensures SubMonthsAsWritten(Date(2024, 3, 31), 1) == Month(2024, 3)
    ensures SubMonthsAsWritten(Date(2024, 3, 31), 0) == Month(2024, 3)
  {
    var now := Date(2024, 3, 31);
    assert DaysIn(2024, 3) == 31;
    assert ValidDate(now);
    var feb := MonthsBefore(now, 1);
    assert Ordinal(feb) == 24289;
    assert feb == Month(2024, 2) by {
      assert feb.year * 12 + feb.month - 1 == 24289;
      assert 1 <= feb.month <= 12;
    }
    assert IsLeap(2024);
    assert DaysIn(2024, 2) == 29;
    var mar := MonthsBefore(now, 0);
    assert mar == Month(2024, 3) by {
      assert mar.year * 12 + mar.month - 1 == 24290;
      assert 1 <= mar.month <= 12;
    }
  }

  /** The twelve months of the series, oldest first: the eleven months before the current one, then the current one. */
  function SlotMonth(now: Date, k: nat): (m: Month)
    requires ValidDate(now) && k < 12
    ensures Ordinal(m) == Ordinal(Month(now.year, now.month)) - 11 + k
  {
    MonthsBefore(now, 11 - k)
  }

  /** The slots are twelve consecutive months, so each month appears exactly once. */
  lemma SlotsConsecutive(now: Date, j: nat, k: nat)
    requires ValidDate(now) && j < k < 12
    ensures Ordinal(SlotMonth(now, k)) - Ordinal(SlotMonth(now, j)) == k - j
    ensures SlotMonth(now, j) != SlotMonth(now, k)
  {
  }

  /** A month's count, 0 when the query returned nothing for it. */
  function CountFor(counts: map<Month, nat>, m: Month): nat
  {
    if m in counts then counts[m] else 0
  }

  /** The series handed to the dashboard; `authors` is absent for authors and reviewers. */
  datatype Series = Series(months: seq<Month>, manuscripts: seq<nat>, authors: Option<seq<nat>>)

  /**
   * `authorsVsManuscripts`, with the per-month counts of the two queries as parameters
   * and each slot's month taken from the start of the current month.
   */
  method MonthlySeries(section: SectionEnum.Section, now: Date, authorCounts: map<Month, nat>, manuscriptCounts: map<Month, nat>)
    returns (s: Series)
    requires ValidDate(now)
    ensures |s.months| == 12 && |s.manuscripts| == 12
    ensures forall k :: 0 <= k < 12 ==> s.months[k] == SlotMonth(now, k)
    ensures forall k :: 0 <= k < 12 ==> s.manuscripts[k] == CountFor(manuscriptCounts, s.months[k])
    ensures s.authors.Some? <==> !ReducedView(section)
    ensures s.authors.Some? ==>
      |s.authors.value| == 12 && forall k :: 0 <= k < 12 ==> s.authors.value[k] == CountFor(authorCounts, s.months[k])
  {
    var months: seq<Month> := [];
    var manuscripts: seq<nat> := [];
    var authors: seq<nat> := [];
    var i := 11;
    while i > -1
      invariant -1 <= i <= 11
      invariant |months| == 11 - i && |manuscripts| == 11 - i && |authors| == 11 - i
      invariant forall k :: 0 <= k < |months| ==> months[k] == SlotMonth(now, k)
      invariant forall k :: 0 <= k < |months| ==> manuscripts[k] == CountFor(manuscriptCounts, months[k])
      invariant forall k :: 0 <= k < |months| ==> authors[k] == CountFor(authorCounts, months[k])
    {
      var month := MonthsBefore(now, i);
      assert month == SlotMonth(now, 11 - i);
      months := months + [month];
      authors := authors + [CountFor(authorCounts, month)];
      manuscripts := manuscripts + [CountFor(manuscriptCounts, month)];
      i := i - 1;
    }
    s := Series(months, manuscripts, if ReducedView(section) then None else Some(authors));
  }

  /** The month names `format('M, Y')` prints. */
  function MonthName(month: nat): string
  {
    match month
    case 1 => "Jan" case 2 => "Feb" case 3 => "Mar" case 4 => "Apr" case 5 => "May" case 6 => "Jun"
    case 7 => "Jul" case 8 => "Aug" case 9 => "Sep" case 10 => "Oct" case 11 => "Nov" case _ => "Dec"
  }

  /** The label of a slot, such as "Mar, 2024". */
  function MonthLabel(m: Month): (shown: string)
    ensures |shown| >= 6 && shown[3..5] == ", " && AllDigits(shown[5..])
  {
    MonthName(m.month) + ", " + NatToString(m.year)
  }

  /** Different months get different labels. */
  lemma LabelsDiffer(a: Month, b: Month)
    requires 1 <= a.month <= 12 && 1 <= b.month <= 12 && a != b
    ensures MonthLabel(a) != MonthLabel(b)
  {
    if MonthLabel(a) == MonthLabel(b) {
      assert MonthLabel(a)[..3] == MonthName(a.month);
      assert MonthLabel(b)[..3] == MonthName(b.month);
      assert MonthLabel(a)[5..] == NatToString(a.year);
      assert MonthLabel(b)[5..] == NatToString(b.year);
      ParseNatToString(a.year);
      ParseNatToString(b.year);
    }
  }
}

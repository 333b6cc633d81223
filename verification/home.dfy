/** The listing pipeline of the home page
    (`frontend/src/components/pages/Home.tsx`): the record-to-card transform
    (written out five times in the component, modelled once here), the
    salary extraction, the six sort orders, the distinct company and
    location lists, and the precedence rule that turns the filters and the
    search box into the list endpoint's query. Wall-clock time and
    `posted_date` are integer milliseconds. */
module Home {
  import opened Text
  import opened Api
  import Sorting
  import Dedup
  import Seqs

  /** `1000 * 60 * 60` and `1000 * 60 * 60 * 24`. */
  const HourMs: nat := 3600000
  const DayMs: nat := 86400000

  const ExperienceLevel := "Analyst (Experienced)"
  const FellowCategory := "Actuary (Fellow)"
  const AssociateCategory := "Actuary (Associate)"
  const AnalystCategory := "Analyst"
  const LoadError := "Failed to load job listings. Please try again later."

  /** The card the page renders for one job. `jobType` is the record's
      `type` member (the salary text); `posted` stands for `postedDate`. */
  datatype JobListing = JobListing(
    id: int,
    title: string,
    company: string,
    location: string,
    country: string,
    city: string,
    jobType: string,
    tags: seq<string>,
    experienceLevel: string,
    category: string,
    isNew: bool,
    postedAgo: string,
    posted: int)

  // ---------------------------------------------------------------------
  // Record -> card
  // ---------------------------------------------------------------------

  /** `Math.abs(now.getTime() - postedDate.getTime())`. */
  function Elapsed(now: int, posted: int): nat {
    if now >= posted then now - posted else posted - now
  }

  /** The first comma-separated piece of the location, trimmed. */
  function CityOf(location: string): (city: string)
    ensures city == Trim(location[..IndexOf(location, ',')])
  {
    SplitFirst(location, ',');
    Trim(Split(location, ',')[0])
  }

  /** The last comma-separated piece, trimmed, when there are at least two
      pieces; otherwise empty. */
  function CountryOf(location: string): (country: string)
    ensures ',' !in location ==> country == ""
    ensures ',' in location ==> country == Trim(location[LastIndexOf(location, ',') + 1..])
  {
    var parts := Split(location, ',');
    SplitFirst(location, ',');
    SplitLast(location, ',');
    if |parts| > 1 then Trim(parts[|parts| - 1]) else ""
  }

  datatype AgoUnit = Hours | Days
  datatype Ago = Ago(count: nat, unit: AgoUnit)

  /** Reads back a "<digits>h ago" or "<digits>d ago" string: the forms
      `/^\d+h ago$/` and `/^\d+d ago$/`. */
  function ParseAgo(s: string): Option<Ago> {
    var n := LeadingDigits(s);
    if n == 0 then None
    else if s[n..] == "h ago" then Some(Ago(DecimalValue(s[..n]), Hours))
    else if s[n..] == "d ago" then Some(Ago(DecimalValue(s[..n]), Days))
    else None
  }

  /** Under a day the text counts whole hours, otherwise whole days. */
  function PostedAgo(elapsed: nat): (s: string)
    ensures ParseAgo(s) == Some(
      if elapsed < DayMs then Ago(elapsed / HourMs, Hours) else Ago(elapsed / DayMs, Days))
  {
    var days := elapsed / DayMs;
    if days == 0 then AgoText(elapsed / HourMs, "h ago", Hours)
    else AgoText(days, "d ago", Days)
  }

  function AgoText(n: nat, suffix: string, unit: AgoUnit): (s: string)
    requires suffix == (if unit == Hours then "h ago" else "d ago")
    ensures ParseAgo(s) == Some(Ago(n, unit))
  {
    var ds := NatToString(n);
    var s := ds + suffix;
    LeadingDigitsOfNumeral(ds, suffix);
    assert s[..|ds|] == ds && s[|ds|..] == suffix;
    assert DecimalValue(s[..LeadingDigits(s)]) == n;
    assert unit == Days ==> s[LeadingDigits(s)..] != "h ago" by {
      assert "d ago"[0] != "h ago"[0];
    }
    s
  }

  /** `diffDays < 2`. */
  predicate IsNew(elapsed: nat) {
    elapsed / DayMs < 2
  }

  /** `[country, city].filter(Boolean)`. */
  function Tags(country: string, city: string): (tags: seq<string>)
    ensures |tags| == (if country != "" then 1 else 0) + (if city != "" then 1 else 0)
    ensures forall k :: 0 <= k < |tags| ==> tags[k] != ""
    ensures country != "" ==> tags[0] == country
    ensures city != "" ==> tags[|tags| - 1] == city
  {
    (if country != "" then [country] else []) + (if city != "" then [city] else [])
  }

  /** Case-sensitive keyword search of the description; "Fellow" is checked first. */
  function Category(description: string): (c: string)
    ensures c == FellowCategory <==> IsInfix("Fellow", description)
    ensures c == AssociateCategory <==> !IsInfix("Fellow", description) && IsInfix("Associate", description)
    ensures c == AnalystCategory <==> !IsInfix("Fellow", description) && !IsInfix("Associate", description)
  {
    if Contains(description, "Fellow") then FellowCategory
    else if Contains(description, "Associate") then AssociateCategory
    else AnalystCategory
  }

  /** `job.salary || 'Not specified'`: `null` and the empty string are both falsy. */
  function JobType(salary: Option<string>): (t: string)
    ensures t != ""
    ensures salary.Some? && salary.value != "" ==> t == salary.value
    ensures t == NotSpecified <==> salary.None? || salary.value == "" || salary.value == NotSpecified
  {
    if salary.Some? && salary.value != "" then salary.value else NotSpecified
  }

  /** The transform applied to every job the API returns. `None` stands for
      the `TypeError` the callback throws when `location` or `description`
      is `null` (it calls `split` on one and `includes` on the other). The
      record's identity and posting time carry over, and the place is read
      off the location; the lemmas below state the other derived fields. */
  function Transform(job: Job, now: int): (r: Option<JobListing>)
    ensures r.None? <==> job.location.None? || job.description.None?
    ensures r.Some? ==> r.value.id == job.id && r.value.title == job.title && r.value.company == job.company
    ensures r.Some? ==> Some(r.value.location) == job.location && r.value.posted == job.posted
    ensures r.Some? ==> r.value.experienceLevel == ExperienceLevel
    ensures r.Some? ==> r.value.city == CityOf(r.value.location) && r.value.country == CountryOf(r.value.location)
  {
    if job.location.None? || job.description.None? then None
    else
      var location := job.location.value;
      var city := CityOf(location);
      var country := CountryOf(location);
      var e := Elapsed(now, job.posted);
      Some(JobListing(
        job.id, job.title, job.company, location, country, city,
        JobType(job.salary), Tags(country, city), ExperienceLevel,
        Category(job.description.value), IsNew(e), PostedAgo(e), job.posted))
  }

  /** The age text and the new flag: a card is new exactly when fewer than
      two whole days have elapsed, so every card whose age is in hours is new. */
  lemma TransformAge(job: Job, now: int)
    ensures Transform(job, now).Some? ==>
      var l := Transform(job, now).value;
      var e := Elapsed(now, job.posted);
      && ParseAgo(l.postedAgo) == Some(if e < DayMs then Ago(e / HourMs, Hours) else Ago(e / DayMs, Days))
      && (l.isNew <==> e < 2 * DayMs)
      && ParseAgo(l.postedAgo).Some?
      && (ParseAgo(l.postedAgo).value.unit == Hours ==> l.isNew)
  {
    if Transform(job, now).Some? {
      var l := Transform(job, now).value;
      var e := Elapsed(now, job.posted);
      assert l.postedAgo == PostedAgo(e) && l.isNew == IsNew(e);
    }
  }

  /** Tags, job type and category of a card: the tags are the country then
      the city, empty ones dropped; the type is the salary unless that is
      missing or empty; the category is the first keyword found, else Analyst. */
  lemma TransformLabels(job: Job, now: int)
    ensures Transform(job, now).Some? ==>
      var l := Transform(job, now).value;
      var d := job.description.value;
      && |l.tags| <= 2 && (forall k :: 0 <= k < |l.tags| ==> l.tags[k] != "")
      && (l.jobType == NotSpecified <==> job.salary.None? || job.salary.value == "" || job.salary.value == NotSpecified)
      && (l.category == FellowCategory <==> IsInfix("Fellow", d))
      && (l.category == AssociateCategory <==> !IsInfix("Fellow", d) && IsInfix("Associate", d))
      && (l.category == AnalystCategory <==> !IsInfix("Fellow", d) && !IsInfix("Associate", d))
      && (job.salary.Some? && job.salary.value != "" ==> l.jobType == job.salary.value)
      && |l.tags| == (if l.country != "" then 1 else 0) + (if l.city != "" then 1 else 0)
      && (l.country != "" ==> l.tags[0] == l.country)
      && (l.city != "" ==> l.tags[|l.tags| - 1] == l.city)
      && l.tags == Tags(l.country, l.city) && l.jobType == JobType(job.salary) && l.category == Category(d)
  {
    if Transform(job, now).Some? {
      var l := Transform(job, now).value;
      assert l.tags == Tags(l.country, l.city) && l.jobType == JobType(job.salary);
      assert l.category == Category(job.description.value);
    }
  }

  // ---------------------------------------------------------------------
  // Salary value and the sort orders
  // ---------------------------------------------------------------------

  /** `getSalaryValue`: "Not specified" and text without digits are worth 0;
      otherwise the digit runs are concatenated and read in base 10. */
  function SalaryValue(salary: string): (v: nat)
    ensures v == 0 <==> forall k :: 0 <= k < |salary| && IsDigit(salary[k]) ==> salary[k] == '0'
  {
    if salary == NotSpecified then
      assert forall k :: 0 <= k < |salary| ==> !IsDigit(salary[k]);
      0
    else
      var ds := Digits(salary);
      DecimalValueZero(ds);
      DigitsMembers(salary);
      DecimalValue(ds)
  }

  /** The test for "Not specified" changes nothing: that text has no digits. */
  lemma SalaryGuardRedundant(salary: string)
    ensures SalaryValue(salary) == DecimalValue(Digits(salary))
  {
    if salary == NotSpecified {
      assert forall k :: 0 <= k < |salary| ==> !IsDigit(salary[k]);
      assert Digits(salary) == [];
    }
  }

  /** A plain numeral is worth the number it writes. */
  lemma SalaryOfNumeral(n: nat)
    ensures SalaryValue(NatToString(n)) == n
  {
    var s := NatToString(n);
    DigitsOfNumeral(s);
    assert s != NotSpecified by { assert IsDigit(s[0]) && !IsDigit(NotSpecified[0]); }
  }

  /** A salary range is read as one number: the digits of its two ends are
      run together ("$70,000 - $90,000" is worth 7000090000). */
  lemma SalaryRunsConcatenate(low: string, high: string)
    ensures SalaryValue(low + high) == DecimalValue(Digits(low) + Digits(high))
  {
    DigitsAppend(low, high);
    SalaryGuardRedundant(low + high);
  }

  datatype SortOrder = Newest | Oldest | CompanyAz | CompanyZa | SalaryHighLow | SalaryLowHigh

  /** What each order promises of two cards shown one above the other. */
  predicate InOrder(order: SortOrder, a: JobListing, b: JobListing) {
    match order
    case Newest => a.posted >= b.posted
    case Oldest => a.posted <= b.posted
    case CompanyAz => LexCompare(a.company, b.company) <= 0
    case CompanyZa => LexCompare(a.company, b.company) >= 0
    case SalaryHighLow => SalaryValue(a.jobType) >= SalaryValue(b.jobType)
    case SalaryLowHigh => SalaryValue(a.jobType) <= SalaryValue(b.jobType)
  }

  /** The comparator handed to `Array.prototype.sort` for each order;
      `localeCompare` is taken as code-point comparison. It leaves `a`
      ahead of `b` exactly when the pair is in the order the option names. */
  function Compare(order: SortOrder, a: JobListing, b: JobListing): (r: int)
    ensures r <= 0 <==> InOrder(order, a, b)
  {
    match order
    case Newest => b.posted - a.posted
    case Oldest => a.posted - b.posted
    case CompanyAz => LexCompare(a.company, b.company)
    case CompanyZa =>
      LexCompareAntisymmetric(a.company, b.company);
      LexCompare(b.company, a.company)
    case SalaryHighLow => SalaryValue(b.jobType) - SalaryValue(a.jobType)
    case SalaryLowHigh => SalaryValue(a.jobType) - SalaryValue(b.jobType)
  }

  /** `a` may stay ahead of `b`: the comparator does not ask to swap them. */
  function MayPrecede(order: SortOrder): (JobListing, JobListing) -> bool {
    (a: JobListing, b: JobListing) => Compare(order, a, b) <= 0
  }

  /** Every comparator is consistent, so the sort is well defined. */
  lemma CompareIsTotalPreorder(order: SortOrder)
    ensures Sorting.TotalPreorder(MayPrecede(order))
  {
    var le := MayPrecede(order);
    if order == CompanyAz || order == CompanyZa {
      forall a: JobListing, b: JobListing ensures le(a, b) || le(b, a) {
        LexCompareAntisymmetric(a.company, b.company);
      }
      forall a: JobListing, b: JobListing, c: JobListing | le(a, b) && le(b, c) ensures le(a, c) {
        if order == CompanyAz {
          LexCompareTransitive(a.company, b.company, c.company);
        } else {
          LexCompareTransitive(c.company, b.company, a.company);
        }
      }
    }
  }

  /** The sort effect: an empty list stays empty, any other is sorted
      stably under the selected comparator. */
  function SortListings(order: SortOrder, xs: seq<JobListing>): (r: seq<JobListing>)
    ensures multiset(r) == multiset(xs)
    ensures forall i, j :: 0 <= i < j < |r| ==> InOrder(order, r[i], r[j])
  {
    if |xs| == 0 then []
    else
      var r := Sorting.Sort(xs, MayPrecede(order));
      SortedByComparator(order, xs, r);
      r
  }

  /** The stable sort leaves every pair in the order the comparator asks for. */
  lemma SortedByComparator(order: SortOrder, xs: seq<JobListing>, r: seq<JobListing>)
    requires r == Sorting.Sort(xs, MayPrecede(order))
    ensures forall i, j :: 0 <= i < j < |r| ==> InOrder(order, r[i], r[j])
  {
    CompareIsTotalPreorder(order);
    Sorting.SortSorted(xs, MayPrecede(order));
    forall i, j | 0 <= i < j < |r| ensures InOrder(order, r[i], r[j]) {
      assert MayPrecede(order)(r[i], r[j]);
      if order == CompanyZa {
        LexCompareAntisymmetric(r[i].company, r[j].company);
      }
    }
  }

  /** With distinct company names, Z to A is A to Z read backwards. */
  lemma CompanyZaReversesAz(xs: seq<JobListing>)
    requires forall i, j :: 0 <= i < j < |xs| ==> xs[i].company != xs[j].company
    ensures SortListings(CompanyZa, xs) == Sorting.Reverse(SortListings(CompanyAz, xs))
  {
    var az := SortListings(CompanyAz, xs);
    var za := SortListings(CompanyZa, xs);
    var back := Sorting.Reverse(az);
    var le := MayPrecede(CompanyZa);
    CompareIsTotalPreorder(CompanyZa);
    Sorting.ReverseMultiset(az);
    ReversedAzIsZa(az, back);
    ZaIsSorted(za);
    DistinctCompaniesNeverTie(xs, za);
    Sorting.SortedUnique(za, back, le);
  }

  lemma ReversedAzIsZa(az: seq<JobListing>, back: seq<JobListing>)
    requires forall i, j :: 0 <= i < j < |az| ==> InOrder(CompanyAz, az[i], az[j])
    requires |back| == |az| && forall k :: 0 <= k < |az| ==> back[k] == az[|az| - 1 - k]
    ensures Sorting.SortedBy(back, MayPrecede(CompanyZa))
  {
    forall i, j | 0 <= i < j < |back| ensures MayPrecede(CompanyZa)(back[i], back[j]) {
      var p, q := |az| - 1 - j, |az| - 1 - i;
      assert back[i] == az[q] && back[j] == az[p];
      assert InOrder(CompanyAz, az[p], az[q]);
      assert LexCompare(back[j].company, back[i].company) <= 0;
    }
  }

  lemma ZaIsSorted(za: seq<JobListing>)
    requires forall i, j :: 0 <= i < j < |za| ==> InOrder(CompanyZa, za[i], za[j])
    ensures Sorting.SortedBy(za, MayPrecede(CompanyZa))
  {
    forall i, j | 0 <= i < j < |za| ensures MayPrecede(CompanyZa)(za[i], za[j]) {
      assert InOrder(CompanyZa, za[i], za[j]);
      LexCompareAntisymmetric(za[i].company, za[j].company);
    }
  }

  lemma DistinctCompaniesNeverTie(xs: seq<JobListing>, ys: seq<JobListing>)
    requires forall i, j :: 0 <= i < j < |xs| ==> xs[i].company != xs[j].company
    requires multiset(ys) == multiset(xs)
    ensures forall x, y :: x in ys && y in ys && MayPrecede(CompanyZa)(x, y) && MayPrecede(CompanyZa)(y, x) ==> x == y
  {
    forall x, y | x in ys && y in ys && MayPrecede(CompanyZa)(x, y) && MayPrecede(CompanyZa)(y, x) ensures x == y {
      LexCompareAntisymmetric(x.company, y.company);
      LexCompareZeroIffEqual(x.company, y.company);
      assert x in multiset(xs) && y in multiset(xs);
      var i :| 0 <= i < |xs| && xs[i] == x;
      var j :| 0 <= j < |xs| && xs[j] == y;
    }
  }

  // ---------------------------------------------------------------------
  // Search suggestions and query resolution
  // ---------------------------------------------------------------------

  /** The distinct company names and locations of the current listings, in
      order of first appearance (`Array.from(new Set(...))`). */
  datatype Known = Known(companies: seq<string>, locations: seq<string>)

  /** `transformedJobs.map(job => job.company)`. */
  function Companies(listings: seq<JobListing>): (cs: seq<string>)
    ensures |cs| == |listings| && forall i :: 0 <= i < |listings| ==> cs[i] == listings[i].company
  {
    seq(|listings|, i requires 0 <= i < |listings| => listings[i].company)
  }

  /** `transformedJobs.map(job => job.location)`. */
  function Locations(listings: seq<JobListing>): (ls: seq<string>)
    ensures |ls| == |listings| && forall i :: 0 <= i < |listings| ==> ls[i] == listings[i].location
  {
    seq(|listings|, i requires 0 <= i < |listings| => listings[i].location)
  }

  /** The suggestion lists: the companies and the locations of the listings,
      each at the position of its first appearance. */
  function KnownValues(listings: seq<JobListing>): (k: Known)
    ensures k.companies == Dedup.FirstOccurrences(Companies(listings), Self, {})
    ensures k.locations == Dedup.FirstOccurrences(Locations(listings), Self, {})
    ensures forall c :: c in k.companies <==> exists l :: l in listings && l.company == c
    ensures forall c :: c in k.locations <==> exists l :: l in listings && l.location == c
    ensures forall i, j :: 0 <= i < j < |k.companies| ==> k.companies[i] != k.companies[j]
    ensures forall i, j :: 0 <= i < j < |k.locations| ==> k.locations[i] != k.locations[j]
  {
    var companies := Companies(listings);
    var locations := Locations(listings);
    ProjectedMembers(listings, (l: JobListing) => l.company, companies);
    ProjectedMembers(listings, (l: JobListing) => l.location, locations);
    Known(Distinct(companies), Distinct(locations))
  }

  /** The search picks, among the known companies, the company of the first
      listing whose company contains the term: the suggestion list keeps
      first-appearance order, so no other company can come before it. */
  lemma SearchPicksFirstListedCompany(listings: seq<JobListing>, search: string, i0: int)
    requires search != ""
    requires 0 <= i0 < |listings| && IsInfix(Lower(search), Lower(listings[i0].company))
    requires forall j :: 0 <= j < i0 ==> !IsInfix(Lower(search), Lower(listings[j].company))
    ensures ResolveQuery("", "", search, KnownValues(listings)) == JobQuery(Some(listings[i0].company), None, None)
  {
    var known := KnownValues(listings);
    var xs := Companies(listings);
    assert known.companies == Distinct(xs);
    var k := FirstHitOfDistinct(xs, Lower(search), i0);
    ResolveCompanyHit(known, search, k);
  }

  /** The first entry of `Distinct(xs)` containing the term is the first
      entry of `xs` containing it. */
  lemma FirstHitOfDistinct(xs: seq<string>, term: string, i0: int) returns (k: int)
    requires 0 <= i0 < |xs| && IsInfix(term, Lower(xs[i0]))
    requires forall j :: 0 <= j < i0 ==> !IsInfix(term, Lower(xs[j]))
    ensures FirstHit(Distinct(xs), term, k) && Distinct(xs)[k] == xs[i0]
  {
    var r := Distinct(xs);
    var p := (c: string) => IsInfix(term, Lower(c));
    assert Dedup.FirstOfKey(xs, Self, i0) by {
      forall j | 0 <= j < i0 ensures Self(xs[j]) != Self(xs[i0]) {
        assert !p(xs[j]) && p(xs[i0]);
      }
    }
    Dedup.FirstsHit(xs, Self, {}, p, 0, i0);
    k :| Dedup.FirstHitAt(r, p, xs[i0], k);
    forall m | 0 <= m < k ensures !IsInfix(term, Lower(r[m])) {
      assert !p(r[m]);
    }
  }

  /** With no filters, a search whose first hit among the known companies is
      at `k` asks for that company. */
  lemma ResolveCompanyHit(known: Known, search: string, k: int)
    requires search != "" && FirstHit(known.companies, Lower(search), k)
    ensures ResolveQuery("", "", search, known) == JobQuery(Some(known.companies[k]), None, None)
  {
    var term := Lower(search);
    var r := known.companies;
    var q := ResolveQuery("", "", search, known);
    assert !NoHit(r, term);
    var i :| FirstHit(r, term, i) && q == JobQuery(Some(r[i]), None, None);
    assert i == k;
  }

  /** The values of one field across the listings are the values some listing has. */
  lemma ProjectedMembers(listings: seq<JobListing>, field: JobListing -> string, vs: seq<string>)
    requires |vs| == |listings| && forall i :: 0 <= i < |listings| ==> vs[i] == field(listings[i])
    ensures forall c :: c in vs <==> exists l :: l in listings && field(l) == c
  {
    forall c ensures c in vs <==> exists l :: l in listings && field(l) == c {
      if c in vs {
        var i :| 0 <= i < |vs| && vs[i] == c;
        assert listings[i] in listings;
      }
      if exists l :: l in listings && field(l) == c {
        var l :| l in listings && field(l) == c;
        var i :| 0 <= i < |listings| && listings[i] == l;
        assert vs[i] == c;
      }
    }
  }

  /** A string as its own de-duplication key. */
  function Self(x: string): string {
    x
  }

  /** `Array.from(new Set(xs))`: first occurrences only, at the positions of
      their first appearance. */
  function Distinct(xs: seq<string>): (r: seq<string>)
    ensures r == Dedup.FirstOccurrences(xs, Self, {})
    ensures forall c :: c in r <==> c in xs
    ensures forall i, j :: 0 <= i < j < |r| ==> r[i] != r[j]
    ensures Seqs.IsSubsequence(r, xs)
  {
    var r := Dedup.DedupBy(xs, Self);
    Seqs.SubsequenceMembers(r, xs);
    assert forall i :: 0 <= i < |xs| ==> exists k :: 0 <= k < |r| && r[k] == xs[i];
    r
  }

  /** Index of the first entry whose lower-cased text contains `term`, or `|xs|`. */
  function FindIndex(xs: seq<string>, term: string): (r: nat)
    ensures r <= |xs|
    ensures forall j :: 0 <= j < r ==> !IsInfix(term, Lower(xs[j]))
    ensures r < |xs| ==> IsInfix(term, Lower(xs[r]))
  {
    if xs == [] then 0
    else if Contains(Lower(xs[0]), term) then 0
    else 1 + FindIndex(xs[1..], term)
  }

  ghost predicate FirstHit(xs: seq<string>, term: string, i: int) {
    0 <= i < |xs| && IsInfix(term, Lower(xs[i])) && forall j :: 0 <= j < i ==> !IsInfix(term, Lower(xs[j]))
  }

  ghost predicate NoHit(xs: seq<string>, term: string) {
    forall j :: 0 <= j < |xs| ==> !IsInfix(term, Lower(xs[j]))
  }

  /** How the search text alone decides the query: the first known company
      containing the lower-cased term, else the first known location, else
      a free-text search for the term. */
  ghost predicate ResolvedFromSearch(q: JobQuery, term: string, known: Known) {
    || (exists i :: FirstHit(known.companies, term, i) && q == JobQuery(Some(known.companies[i]), None, None))
    || (NoHit(known.companies, term) && exists i :: FirstHit(known.locations, term, i) && q == JobQuery(None, Some(known.locations[i]), None))
    || (NoHit(known.companies, term) && NoHit(known.locations, term) && q == JobQuery(None, None, Some(term)))
  }

  /** The query `fetchJobs` builds from the filter state and the search box. */
  function ResolveQuery(companyFilter: string, locationFilter: string, searchQuery: string, known: Known): (q: JobQuery)
    ensures companyFilter != "" || locationFilter != "" ==>
      q == JobQuery(NonEmpty(companyFilter), NonEmpty(locationFilter), None)
    ensures companyFilter == "" && locationFilter == "" && searchQuery == "" ==> q == EmptyQuery
    ensures companyFilter == "" && locationFilter == "" && searchQuery != "" ==>
      ResolvedFromSearch(q, Lower(searchQuery), known)
    ensures companyFilter == "" && locationFilter == "" ==>
      (if q.company.Some? then 1 else 0) + (if q.location.Some? then 1 else 0) + (if q.search.Some? then 1 else 0) <= 1
  {
    if companyFilter != "" || locationFilter != "" || searchQuery == "" then
      JobQuery(NonEmpty(companyFilter), NonEmpty(locationFilter), None)
    else
      var term := Lower(searchQuery);
      var ci := FindIndex(known.companies, term);
      var li := FindIndex(known.locations, term);
      if ci < |known.companies| then
        assert FirstHit(known.companies, term, ci);
        JobQuery(Some(known.companies[ci]), None, None)
      else if li < |known.locations| then
        assert FirstHit(known.locations, term, li);
        JobQuery(None, Some(known.locations[li]), None)
      else
        JobQuery(None, None, Some(term))
  }

  // ---------------------------------------------------------------------
  // The fetch effect
  // ---------------------------------------------------------------------

  datatype HomeState = HomeState(listings: seq<JobListing>, known: Known, error: Option<string>)

  /** Some record has a `null` location or description. */
  ghost predicate HasNullField(jobs: seq<Job>) {
    exists i :: 0 <= i < |jobs| && (jobs[i].location.None? || jobs[i].description.None?)
  }

  /** One run of `fetchJobs` once the request settles: `response` is the
      list the API returned, or `None` when the request threw. A throw, in
      the request or in the transform of any record, keeps the cards
      already shown and raises the error message; otherwise the cards and
      the suggestion lists are replaced together. `nows[i]` is the
      `new Date()` the callback reads for record `i`. */
  function ApplyFetch(st: HomeState, response: Option<seq<Job>>, nows: seq<int>): (st': HomeState)
    requires response.Some? ==> |nows| == |response.value|
    ensures response.None? || HasNullField(response.value) ==>
      st'.listings == st.listings && st'.known == st.known && st'.error == Some(LoadError)
    ensures response.Some? && !HasNullField(response.value) ==>
      && st'.error.None? && |st'.listings| == |response.value|
      && (forall i :: 0 <= i < |response.value| ==> Transform(response.value[i], nows[i]) == Some(st'.listings[i]))
    ensures response.Some? && !HasNullField(response.value) ==> st'.known == KnownValues(st'.listings)
    ensures response.Some? && !HasNullField(response.value) ==>
      forall c :: c in st'.known.companies <==> exists l :: l in st'.listings && l.company == c
  {
    if response.None? then st.(error := Some(LoadError))
    else
      match TransformAll(response.value, nows)
      case None => st.(error := Some(LoadError))
      case Some(listings) => HomeState(listings, KnownValues(listings), None)
  }

  /** `response.map(transform)`: every card, or `None` when the callback
      throws on some record. The callback reads the clock afresh for each
      record: `nows[i]` is the reading for `jobs[i]`. */
  function TransformAll(jobs: seq<Job>, nows: seq<int>): (r: Option<seq<JobListing>>)
    requires |nows| == |jobs|
    ensures r.None? <==> HasNullField(jobs)
    ensures r.Some? ==> |r.value| == |jobs| && forall i :: 0 <= i < |jobs| ==> Transform(jobs[i], nows[i]) == Some(r.value[i])
  {
    if forall i :: 0 <= i < |jobs| ==> Transform(jobs[i], nows[i]).Some? then
      Some(seq(|jobs|, i requires 0 <= i < |jobs| => Transform(jobs[i], nows[i]).value))
    else
      None
  }

  /** Because each record reads the clock itself, two records posted at the
      same moment can show different ages: read one millisecond either side
      of the hour, they show "0h ago" and "1h ago". */
  lemma AgeFollowsEachReading(j: Job)
    requires j.posted == 0 && j.location.Some? && j.description.Some?
    ensures TransformAll([j, j], [3599999, 3600000]).Some?
    ensures var r := TransformAll([j, j], [3599999, 3600000]).value;
      ParseAgo(r[0].postedAgo) == Some(Ago(0, Hours)) && ParseAgo(r[1].postedAgo) == Some(Ago(1, Hours))
      && r[0].postedAgo != r[1].postedAgo
  {
    var r := TransformAll([j, j], [3599999, 3600000]).value;
    TransformAge(j, 3599999);
    TransformAge(j, 3600000);
    assert Transform(j, 3599999) == Some(r[0]);
    assert Transform(j, 3600000) == Some(r[1]);
  }
}

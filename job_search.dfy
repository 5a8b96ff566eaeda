/** The job search of `src/components/JobListingsModal.tsx`: the listings
    are filtered by a search term, a location and a job type, then sorted
    by minimum salary or by whether the title matches the term. The job
    list itself is an input. */
module JobSearch {
  import opened Wrappers
  import opened Strings
  import StableSort

  datatype Job = Job(id: string, title: string, company: string, location: string,
                     description: string, salary: string, url: string)

  // ---------------------------------------------------------------------
  // Filtering

  /** The title, company or description contains the term, ignoring case. */
  predicate MatchesTerm(job: Job, searchTerm: string)
  {
    || ContainsIgnoreCase(job.title, searchTerm)
    || ContainsIgnoreCase(job.company, searchTerm)
    || ContainsIgnoreCase(job.description, searchTerm)
  }

  /** `!location || ...`: an empty location matches every job. */
  predicate MatchesLocation(job: Job, location: string)
  {
    location == "" || ContainsIgnoreCase(job.location, location)
  }

  /** `jobType === 'all' || (jobType === 'remote' && ...)`. */
  predicate MatchesType(job: Job, jobType: string)
  {
    jobType == "all" || (jobType == "remote" && Contains(ToLower(job.location), "remote"))
  }

  predicate Matches(job: Job, searchTerm: string, location: string, jobType: string)
  {
    MatchesTerm(job, searchTerm) && MatchesLocation(job, location) && MatchesType(job, jobType)
  }

  function Matcher(searchTerm: string, location: string, jobType: string): Job -> bool
  {
    job => Matches(job, searchTerm, location, jobType)
  }

  /** `mockJobs.filter(...)`. */
  function FilteredJobs(jobs: seq<Job>, searchTerm: string, location: string, jobType: string): seq<Job>
  {
    StableSort.Filter(jobs, Matcher(searchTerm, location, jobType))
  }

  /** The filtered list keeps exactly the matching jobs, in their order. */
  lemma FilteredJobsSpec(jobs: seq<Job>, searchTerm: string, location: string, jobType: string)
    ensures var r := FilteredJobs(jobs, searchTerm, location, jobType);
      && StableSort.SubsequenceOf(r, jobs)
      && (forall job :: job in r <==> job in jobs && Matches(job, searchTerm, location, jobType))
  {
    StableSort.FilterSpec(jobs, Matcher(searchTerm, location, jobType));
  }

  /** An empty term, an empty location and type "all" keep every job. */
  lemma {:induction false} NoCriteriaKeepsAll(jobs: seq<Job>)
    ensures FilteredJobs(jobs, "", "", "all") == jobs
    decreases |jobs|
  {
    if jobs != [] {
      ContainsEmpty(ToLower(jobs[0].title));
      assert ToLower("") == "";
      NoCriteriaKeepsAll(jobs[1..]);
    }
  }

  /** A job type other than "all" and "remote" keeps no job. */
  lemma {:induction false} UnknownTypeKeepsNone(jobs: seq<Job>, searchTerm: string, location: string, jobType: string)
    requires jobType != "all" && jobType != "remote"
    ensures FilteredJobs(jobs, searchTerm, location, jobType) == []
    decreases |jobs|
  {
    if jobs != [] {
      UnknownTypeKeepsNone(jobs[1..], searchTerm, location, jobType);
    }
  }

  // ---------------------------------------------------------------------
  // `parseInt`

  /** The value of a digit character in bases up to 36; 36 for any other
      character. */
  function DigitOf(c: char): (d: nat)
    ensures d <= 36
  {
    if '0' <= c <= '9' then (c - '0') as nat
    else if 'a' <= c <= 'z' then (c - 'a') as nat + 10
    else if 'A' <= c <= 'Z' then (c - 'A') as nat + 10
    else 36
  }

  /** The longest prefix of digits of `radix`. */
  function DigitRun(s: string, radix: nat): (r: string)
    ensures |r| <= |s| && r == s[..|r|]
    ensures forall i :: 0 <= i < |r| ==> DigitOf(r[i]) < radix
    ensures |r| == |s| || DigitOf(s[|r|]) >= radix
    decreases |s|
  {
    if s == [] || DigitOf(s[0]) >= radix then [] else [s[0]] + DigitRun(s[1..], radix)
  }

  /** The number a digit string denotes in `radix`. */
  function DigitsValue(ds: string, radix: nat): nat
    decreases |ds|
  {
    if ds == [] then 0
    else DigitsValue(ds[..|ds| - 1], radix) * radix + DigitOf(ds[|ds| - 1])
  }

  /** The digits after the sign: a `0x`/`0X` prefix selects base 16, and
      the longest run of digits that follows is the value; without a digit
      the result is `NaN`. */
  function Unsigned(u: string): (r: Option<int>)
    ensures r.Some? ==> r.value >= 0
  {
    var hex := |u| >= 2 && u[0] == '0' && (u[1] == 'x' || u[1] == 'X');
    var radix := if hex then 16 else 10;
    var ds := DigitRun(if hex then u[2..] else u, radix);
    if ds == [] then None else Some(DigitsValue(ds, radix))
  }

  /** `parseInt(s)` without a radix, with `None` for `NaN`: leading white
      space is skipped and one sign is read before the digits. */
  function ParseInt(s: string): Option<int>
  {
    var t := TrimStart(s);
    if t != [] && t[0] == '-' then
      match Unsigned(t[1..])
      case Some(v) => Some(-v)
      case None => None
    else if t != [] && t[0] == '+' then Unsigned(t[1..])
    else Unsigned(t)
  }

  /** `String(n)` for a natural number. */
  function Decimal(n: nat): (r: string)
    ensures r != []
    ensures forall i :: 0 <= i < |r| ==> '0' <= r[i] <= '9'
  {
    if n < 10 then [('0' as int + n) as char]
    else Decimal(n / 10) + [('0' as int + n % 10) as char]
  }

  lemma {:induction false} DecimalValue(n: nat)
    ensures DigitsValue(Decimal(n), 10) == n
  {
    if n >= 10 {
      var d := Decimal(n / 10) + [('0' as int + n % 10) as char];
      assert d[..|d| - 1] == Decimal(n / 10);
      DecimalValue(n / 10);
    }
  }

  /** A run of decimal digits parses to its value. */
  lemma ParseIntDigits(s: string)
    requires s != []
    requires forall i :: 0 <= i < |s| ==> '0' <= s[i] <= '9'
    ensures ParseInt(s) == Some(DigitsValue(s, 10))
  {
    TrimStartDigits(s);
    UnsignedDigits(s);
  }

  lemma UnsignedDigits(s: string)
    requires s != []
    requires forall i :: 0 <= i < |s| ==> '0' <= s[i] <= '9'
    ensures Unsigned(s) == Some(DigitsValue(s, 10))
  {
    assert !(|s| >= 2 && s[0] == '0' && (s[1] == 'x' || s[1] == 'X'));
    DigitRunDigits(s);
  }

  lemma TrimStartDigits(s: string)
    requires s != [] && '0' <= s[0] <= '9'
    ensures TrimStart(s) == s
  {
    TrimStartNonWhite(s);
  }

  lemma TrimStartNonWhite(s: string)
    requires s != [] && !IsWhite(s[0])
    ensures TrimStart(s) == s
  {
  }

  lemma DigitRunDigits(s: string)
    requires forall i :: 0 <= i < |s| ==> '0' <= s[i] <= '9'
    ensures DigitRun(s, 10) == s
  {
  }

  /** `parseInt(String(n)) == n`. */
  lemma ParseIntDecimal(n: nat)
    ensures ParseInt(Decimal(n)) == Some(n)
  {
    ParseIntDigits(Decimal(n));
    DecimalValue(n);
  }

  /** `parseInt('-' + String(n)) == -n`. */
  lemma ParseIntNegative(n: nat)
    ensures ParseInt("-" + Decimal(n)) == Some(-(n as int))
  {
    ParseIntMinus(Decimal(n));
    UnsignedDigits(Decimal(n));
    DecimalValue(n);
  }

  /** A leading '-' negates what the rest parses to. */
  lemma ParseIntMinus(u: string)
    ensures ParseInt("-" + u) == match Unsigned(u) case Some(v) => Some(-v) case None => None
  {
    var s := "-" + u;
    TrimStartNonWhite(s);
    assert s[1..] == u;
  }

  /** White space alone, or nothing, is `NaN`. */
  lemma ParseIntBlank(s: string)
    requires AllWhite(s)
    ensures ParseInt(s) == None
  {
    TrimStartAllWhite(s);
    assert Unsigned([]) == None;
  }

  /** `salary.split(' - ')[0]`: the text before the first `" - "`, or the
      whole text when there is none. */
  function BeforeRange(salary: string): (r: string)
    ensures IndexOf(salary, " - ").None? ==> r == salary
    ensures IndexOf(salary, " - ").Some? ==> OccursAt(salary, " - ", |r|) && r == salary[..|r|]
  {
    match IndexOf(salary, " - ")
    case None => salary
    case Some(i) => salary[..i]
  }

  /** The minimum salary: `parseInt` of the text before `" - "` with every
      `$` and `,` removed. */
  function MinSalary(salary: string): Option<int>
  {
    ParseInt(Without(BeforeRange(salary), {'$', ','}))
  }

  lemma {:induction false} WithoutAppend<T>(a: seq<T>, b: seq<T>, s: set<T>)
    ensures Without(a + b, s) == Without(a, s) + Without(b, s)
    decreases |b|
  {
    if b == [] {
      assert a + b == a;
    } else {
      var last := if b[|b| - 1] in s then [] else [b[|b| - 1]];
      LastOfAppend(a, b);
      WithoutAppend(a, b[..|b| - 1], s);
      calc {
        Without(a + b, s);
        Without(a + b[..|b| - 1], s) + last;
        (Without(a, s) + Without(b[..|b| - 1], s)) + last;
        { ConcatAssoc(Without(a, s), Without(b[..|b| - 1], s), last); }
        Without(a, s) + (Without(b[..|b| - 1], s) + last);
        Without(a, s) + Without(b, s);
      }
    }
  }

  /** The first `" - "` of `$<low> - <rest>` follows `low`. */
  lemma RangeAfterLow(low: string, rest: string)
    requires ' ' !in low
    ensures IndexOf("$" + low + " - " + rest, " - ") == Some(|low| + 1)
  {
    var salary := "$" + low + " - " + rest;
    var p := |low| + 1;
    assert salary[p..p + 3] == " - ";
    assert OccursAt(salary, " - ", p);
    forall j: nat | j < p
      ensures !OccursAt(salary, " - ", j)
    {
      if j == 0 {
        assert salary[0] == '$';
      } else {
        assert salary[j] == low[j - 1];
      }
      assert salary[j..j + 3][0] == salary[j];
    }
  }

  /** A salary written `$<low> - <rest>` has the minimum `low`, whatever
      thousands separators `low` carries. */
  lemma MinSalaryOfRange(low: string, n: nat, rest: string)
    requires ' ' !in low
    requires Without(low, {'$', ','}) == Decimal(n)
    ensures MinSalary("$" + low + " - " + rest) == Some(n)
  {
    var salary := "$" + low + " - " + rest;
    RangeAfterLow(low, rest);
    assert salary[..|low| + 1] == "$" + low;
    WithoutAppend("$", low, {'$', ','});
    assert Without("$", {'$', ','}) == [];
    assert Without("$" + low, {'$', ','}) == Decimal(n);
    ParseIntDecimal(n);
  }

  // ---------------------------------------------------------------------
  // Sorting

  /** `a` may stay before `b` when the comparator does not return a
      positive number. For the salary order that is `bMin - aMin <= 0`; a
      `NaN` difference counts as 0, as the sort treats it. */
  predicate SalaryFirst(a: Job, b: Job)
  {
    match (MinSalary(a.salary), MinSalary(b.salary))
    case (Some(x), Some(y)) => y - x <= 0
    case _ => true
  }

  /** `a.title` contains the term, ignoring case. */
  predicate TitleMatch(job: Job, searchTerm: string)
  {
    ContainsIgnoreCase(job.title, searchTerm)
  }

  /** The relevance comparator returns -1 for a title match before a
      non-match, 1 for the reverse and 0 otherwise, or when the term is
      empty. */
  predicate RelevanceFirst(searchTerm: string, a: Job, b: Job)
  {
    searchTerm == "" || TitleMatch(a, searchTerm) || !TitleMatch(b, searchTerm)
  }

  function Order(searchTerm: string, sortOrder: string): (Job, Job) -> bool
  {
    if sortOrder == "salary" then SalaryFirst
    else (a, b) => RelevanceFirst(searchTerm, a, b)
  }

  /** `[...filteredJobs].sort(...)`, a stable sort of a copy. */
  function SortedJobs(filtered: seq<Job>, searchTerm: string, sortOrder: string): seq<Job>
  {
    StableSort.SortBy(filtered, Order(searchTerm, sortOrder))
  }

  /** Sorting only reorders the filtered jobs. */
  lemma SortedJobsPermutation(filtered: seq<Job>, searchTerm: string, sortOrder: string)
    ensures multiset(SortedJobs(filtered, searchTerm, sortOrder)) == multiset(filtered)
    ensures |SortedJobs(filtered, searchTerm, sortOrder)| == |filtered|
  {
    StableSort.SortByPermutation(filtered, Order(searchTerm, sortOrder));
  }

  function TitleMatcher(searchTerm: string): Job -> bool
  {
    job => TitleMatch(job, searchTerm)
  }

  /** Relevance order with a term: the jobs whose title matches come
      first, then the others, each group in its original order. */
  lemma RelevanceOrder(filtered: seq<Job>, searchTerm: string, sortOrder: string)
    requires searchTerm != "" && sortOrder != "salary"
    ensures SortedJobs(filtered, searchTerm, sortOrder)
         == StableSort.Filter(filtered, TitleMatcher(searchTerm)) + StableSort.FilterNot(filtered, TitleMatcher(searchTerm))
  {
    var p := TitleMatcher(searchTerm);
    var le := Order(searchTerm, sortOrder);
    forall a, b
      ensures le(a, b) == (p(a) || !p(b))
    {
    }
    StableSort.PartitionSort(filtered, le, p);
  }

  /** Relevance order without a term keeps the filtered order. */
  lemma RelevanceWithoutTerm(filtered: seq<Job>, sortOrder: string)
    requires sortOrder != "salary"
    ensures SortedJobs(filtered, "", sortOrder) == filtered
  {
    StableSort.SortBySortedUnchanged(filtered, Order("", sortOrder));
  }

  /** The salary key with a stand-in for `NaN`; its order is total. */
  function SalaryKey(job: Job): int
  {
    match MinSalary(job.salary)
    case Some(x) => x
    case None => 0
  }

  predicate SalaryKeyFirst(a: Job, b: Job)
  {
    SalaryKey(a) >= SalaryKey(b)
  }

  predicate AllSalariesParse(jobs: seq<Job>)
  {
    forall i :: 0 <= i < |jobs| ==> MinSalary(jobs[i].salary).Some?
  }

  /** When every salary parses, the salary order lists minimum salaries
      from highest to lowest, and jobs with the same minimum keep their
      original order. */
  lemma SalaryOrder(filtered: seq<Job>, searchTerm: string, z: Job)
    requires AllSalariesParse(filtered)
    ensures var r := SortedJobs(filtered, searchTerm, "salary");
      && AllSalariesParse(r)
      && (forall i, j :: 0 <= i < j < |r| ==> SalaryKey(r[i]) >= SalaryKey(r[j]))
      && StableSort.EquivTo(r, z, SalaryKeyFirst) == StableSort.EquivTo(filtered, z, SalaryKeyFirst)
  {
    var r := SortedJobs(filtered, searchTerm, "salary");
    forall a, b | a in filtered && b in filtered
      ensures SalaryFirst(a, b) == SalaryKeyFirst(a, b)
    {
      var i :| 0 <= i < |filtered| && filtered[i] == a;
      var j :| 0 <= j < |filtered| && filtered[j] == b;
    }
    StableSort.SortByAgree(filtered, SalaryFirst, SalaryKeyFirst);
    assert StableSort.TotalPreorder(SalaryKeyFirst);
    StableSort.SortBySorted(filtered, SalaryKeyFirst);
    StableSort.SortByStable(filtered, z, SalaryKeyFirst);
    StableSort.SortByPermutation(filtered, SalaryFirst);
    forall i | 0 <= i < |r|
      ensures MinSalary(r[i].salary).Some?
    {
      assert r[i] in multiset(filtered);
      var p :| 0 <= p < |filtered| && filtered[p] == r[i];
    }
  }
}

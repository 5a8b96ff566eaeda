/** The education extractor of
    `src/app/lib/parse-resume-from-pdf/extract-resume-from-sections/extract-education.ts`:
    classification of each subsection, the school and degree fallbacks,
    and the post-processing that keeps one entry per type, fills up with
    untyped entries, orders and caps the list. The feature scorer, the
    subsection divider, bullet detection and the regular expressions are
    not part of this model: their results are inputs. */
module ExtractEducation {
  import opened Wrappers
  import opened Strings
  import StableSort
  import opened ResumeLines

  datatype EducationType = University | Twelfth | Tenth | Other

  datatype ResumeEducation = ResumeEducation(
    school: string,
    degree: string,
    gpa: string,
    date: string,
    descriptions: seq<string>,
    educationType: EducationType)

  /** What the unseen helpers report about one subsection:
      - the highest-scoring school, degree, GPA and date texts ("" when no
        item scores; the GPA already in its final number format);
      - each item's score under the University, 12th and 10th feature sets;
      - the description line index, when there is one;
      - the first match, on the subsection's space-joined text, of the
        college, higher-secondary and secondary school patterns;
      - which of the eight degree patterns match that text, in order. */
  datatype Subsection = Subsection(
    lines: seq<Line>,
    school: string,
    degree: string,
    gpa: string,
    date: string,
    universityScores: seq<int>,
    class12Scores: seq<int>,
    class10Scores: seq<int>,
    descriptionsLineIdx: Option<nat>,
    collegeMatch: Option<string>,
    hscMatch: Option<string>,
    sscMatch: Option<string>,
    degreePatterns: seq<bool>)

  /** Position of a type in the final list (the `sortOrder` table). */
  function TypeRank(t: EducationType): nat
  {
    match t
    case University => 0
    case Twelfth => 1
    case Tenth => 2
    case Other => 3
  }

  // ---------------------------------------------------------------------
  // determineEducationType

  /** The running maximum of a score list, started at 0. */
  function MaxScore(scores: seq<int>): (m: int)
    ensures m >= 0
    ensures forall i :: 0 <= i < |scores| ==> scores[i] <= m
    ensures m == 0 || exists i :: 0 <= i < |scores| && scores[i] == m
    decreases |scores|
  {
    if scores == [] then 0
    else
      var m := MaxScore(scores[..|scores| - 1]);
      if scores[|scores| - 1] > m then scores[|scores| - 1] else m
  }

  /** The type chosen from the three maxima: none positive means Other,
      otherwise the first of University, 12th, 10th that reaches the top. */
  function TypeOfMaxima(u: int, c12: int, c10: int): EducationType
  {
    var top := if u >= c12 && u >= c10 then u else if c12 >= c10 then c12 else c10;
    if top <= 0 then Other
    else if u == top then University
    else if c12 == top then Twelfth
    else if c10 == top then Tenth
    else Other
  }

  function TypeOfScores(u: seq<int>, c12: seq<int>, c10: seq<int>): EducationType
  {
    TypeOfMaxima(MaxScore(u), MaxScore(c12), MaxScore(c10))
  }

  method DetermineEducationType(universityScores: seq<int>, class12Scores: seq<int>, class10Scores: seq<int>)
    returns (t: EducationType)
    ensures t == TypeOfScores(universityScores, class12Scores, class10Scores)
  {
    var universityMax := 0;
    var class12Max := 0;
    var class10Max := 0;
    for i := 0 to |universityScores|
      invariant universityMax == MaxScore(universityScores[..i])
    {
      assert universityScores[..i + 1][..i] == universityScores[..i];
      if universityScores[i] > universityMax {
        universityMax := universityScores[i];
      }
    }
    for i := 0 to |class12Scores|
      invariant class12Max == MaxScore(class12Scores[..i])
    {
      assert class12Scores[..i + 1][..i] == class12Scores[..i];
      if class12Scores[i] > class12Max {
        class12Max := class12Scores[i];
      }
    }
    for i := 0 to |class10Scores|
      invariant class10Max == MaxScore(class10Scores[..i])
    {
      assert class10Scores[..i + 1][..i] == class10Scores[..i];
      if class10Scores[i] > class10Max {
        class10Max := class10Scores[i];
      }
    }
    assert universityScores[..|universityScores|] == universityScores;
    assert class12Scores[..|class12Scores|] == class12Scores;
    assert class10Scores[..|class10Scores|] == class10Scores;
    var maxScore := if universityMax >= class12Max && universityMax >= class10Max then universityMax
                    else if class12Max >= class10Max then class12Max else class10Max;
    if maxScore <= 0 {
      t := Other;
    } else if universityMax == maxScore {
      t := University;
    } else if class12Max == maxScore {
      t := Twelfth;
    } else if class10Max == maxScore {
      t := Tenth;
    } else {
      t := Other;
    }
  }

  predicate NoPositive(scores: seq<int>)
  {
    forall i :: 0 <= i < |scores| ==> scores[i] <= 0
  }

  /** The type is Other exactly when no item scores above 0 under any of
      the three feature sets. */
  lemma OtherIffNoPositiveScore(u: seq<int>, c12: seq<int>, c10: seq<int>)
    ensures TypeOfScores(u, c12, c10) == Other <==> NoPositive(u) && NoPositive(c12) && NoPositive(c10)
  {
    var mu, m12, m10 := MaxScore(u), MaxScore(c12), MaxScore(c10);
    if NoPositive(u) && NoPositive(c12) && NoPositive(c10) {
      assert mu == 0 && m12 == 0 && m10 == 0;
    }
  }

  /** Ties are broken University first, then 12th, then 10th. */
  lemma TypePriority(u: seq<int>, c12: seq<int>, c10: seq<int>)
    ensures var t, mu, m12, m10 := TypeOfScores(u, c12, c10), MaxScore(u), MaxScore(c12), MaxScore(c10);
      && (t == University <==> mu > 0 && mu >= m12 && mu >= m10)
      && (t == Twelfth <==> m12 > 0 && m12 > mu && m12 >= m10)
      && (t == Tenth <==> m10 > 0 && m10 > mu && m10 > m12)
  {
  }

  // ---------------------------------------------------------------------
  // School and degree fallbacks

  /** The school: the scored one, else the pattern match for the type. */
  function FinalSchool(sub: Subsection, t: EducationType): (s: string)
    ensures sub.school != "" ==> s == sub.school
    ensures sub.school == "" && t == University ==> s == (if sub.collegeMatch.Some? then sub.collegeMatch.value else "")
    ensures sub.school == "" && t == Twelfth ==> s == (if sub.hscMatch.Some? then sub.hscMatch.value else "")
    ensures sub.school == "" && t == Tenth ==> s == (if sub.sscMatch.Some? then sub.sscMatch.value else "")
    ensures sub.school == "" && t == Other ==> s == ""
  {
    if sub.school != "" then sub.school
    else
      var m := match t
        case University => sub.collegeMatch
        case Twelfth => sub.hscMatch
        case Tenth => sub.sscMatch
        case Other => None;
      if m.Some? then m.value else sub.school
  }

  /** The names the degree fallback can choose, in pattern order. */
  const DegreeNames: seq<string> := [
    "Bachelor of Technology", "Master of Technology", "Bachelor of Science", "Master of Science",
    "Bachelor of Arts", "Master of Arts", "Master of Business Administration", "Bachelor of Commerce"]

  const GenericDegree: string := "Bachelor's Degree"

  const HigherSecondaryDegree: string := "Higher Secondary Education"

  const SecondaryDegree: string := "Secondary Education"

  /** The degree name of the first pattern, from `i` on, that matches. */
  function FirstDegreeFrom(patterns: seq<bool>, i: nat): (d: string)
    requires i <= |DegreeNames|
    ensures d == GenericDegree || exists k :: i <= k < |DegreeNames| && d == DegreeNames[k]
    decreases |DegreeNames| - i
  {
    if i == |DegreeNames| then GenericDegree
    else if i < |patterns| && patterns[i] then DegreeNames[i]
    else FirstDegreeFrom(patterns, i + 1)
  }

  function FallbackDegree(patterns: seq<bool>): string
  {
    FirstDegreeFrom(patterns, 0)
  }

  predicate PatternMatches(patterns: seq<bool>, k: nat)
  {
    k < |patterns| && patterns[k]
  }

  /** `d` is the name of the first pattern from `i` on that matches, or
      the generic name when none does. */
  predicate FirstMatchFrom(patterns: seq<bool>, i: nat, d: string)
  {
    || (exists k :: i <= k < |DegreeNames| && PatternMatches(patterns, k) && d == DegreeNames[k]
                    && forall j :: i <= j < k ==> !PatternMatches(patterns, j))
    || (d == GenericDegree && forall j :: i <= j < |DegreeNames| ==> !PatternMatches(patterns, j))
  }

  lemma FirstMatchStep(patterns: seq<bool>, i: nat, d: string)
    requires i < |DegreeNames| && !PatternMatches(patterns, i)
    requires FirstMatchFrom(patterns, i + 1, d)
    ensures FirstMatchFrom(patterns, i, d)
  {
    if k :| i + 1 <= k < |DegreeNames| && PatternMatches(patterns, k) && d == DegreeNames[k]
            && forall j :: i + 1 <= j < k ==> !PatternMatches(patterns, j) {
      assert forall j :: i <= j < k ==> !PatternMatches(patterns, j);
    }
  }

  lemma {:induction false} FirstDegreeFromSpec(patterns: seq<bool>, i: nat)
    requires i <= |DegreeNames|
    ensures FirstMatchFrom(patterns, i, FirstDegreeFrom(patterns, i))
    decreases |DegreeNames| - i
  {
    var d := FirstDegreeFrom(patterns, i);
    if i == |DegreeNames| {
      assert d == GenericDegree;
    } else if PatternMatches(patterns, i) {
      assert d == DegreeNames[i];
    } else {
      FirstDegreeFromSpec(patterns, i + 1);
      FirstMatchStep(patterns, i, d);
    }
  }

  /** The fallback is the name of the first matching degree pattern, or
      "Bachelor's Degree" when none matches. */
  lemma FallbackDegreeSpec(patterns: seq<bool>)
    ensures var d := FallbackDegree(patterns);
      || (exists k :: 0 <= k < |DegreeNames| && PatternMatches(patterns, k) && d == DegreeNames[k]
                      && forall j :: 0 <= j < k ==> !PatternMatches(patterns, j))
      || (d == GenericDegree && forall j :: 0 <= j < |DegreeNames| ==> !PatternMatches(patterns, j))
  {
    FirstDegreeFromSpec(patterns, 0);
  }

  function FinalDegree(sub: Subsection, t: EducationType): string
  {
    if sub.degree == "" && t == University then FallbackDegree(sub.degreePatterns)
    else if t == Twelfth && sub.degree == "" then HigherSecondaryDegree
    else if t == Tenth && sub.degree == "" then SecondaryDegree
    else sub.degree
  }

  /** A scored degree is kept; a missing one is filled in for the three
      school types, so none of them ends without a degree. */
  lemma FinalDegreeSpec(sub: Subsection, t: EducationType)
    ensures sub.degree != "" ==> FinalDegree(sub, t) == sub.degree
    ensures t != Other ==> FinalDegree(sub, t) != ""
    ensures sub.degree == "" && t == Twelfth ==> FinalDegree(sub, t) == HigherSecondaryDegree
    ensures sub.degree == "" && t == Tenth ==> FinalDegree(sub, t) == SecondaryDegree
    ensures sub.degree == "" && t == Other ==> FinalDegree(sub, t) == ""
    ensures sub.degree == "" && t == University ==>
      FinalDegree(sub, t) == FallbackDegree(sub.degreePatterns)
      && FirstMatchFrom(sub.degreePatterns, 0, FinalDegree(sub, t))
  {
    FirstDegreeFromSpec(sub.degreePatterns, 0);
    var d := FirstDegreeFrom(sub.degreePatterns, 0);
    if d != GenericDegree {
      var k :| 0 <= k < |DegreeNames| && d == DegreeNames[k];
    }
  }

  // ---------------------------------------------------------------------
  // One entry per subsection

  /** The description lines: from the description index to the end
      (`slice` stops at the end), or none without an index. */
  function Descriptions(sub: Subsection, bullets: seq<Line> -> seq<string>): seq<string>
  {
    match sub.descriptionsLineIdx
    case None => []
    case Some(idx) => bullets(sub.lines[(if idx <= |sub.lines| then idx else |sub.lines|)..])
  }

  function EducationOf(sub: Subsection, bullets: seq<Line> -> seq<string>): ResumeEducation
  {
    var t := TypeOfScores(sub.universityScores, sub.class12Scores, sub.class10Scores);
    ResumeEducation(FinalSchool(sub, t), FinalDegree(sub, t), sub.gpa, sub.date, Descriptions(sub, bullets), t)
  }

  function EducationsOf(subs: seq<Subsection>, bullets: seq<Line> -> seq<string>): (r: seq<ResumeEducation>)
    ensures |r| == |subs|
    ensures forall i :: 0 <= i < |subs| ==> r[i] == EducationOf(subs[i], bullets)
  {
    seq(|subs|, i requires 0 <= i < |subs| => EducationOf(subs[i], bullets))
  }

  // ---------------------------------------------------------------------
  // Courses

  const CoursesPrefix: string := "Courses: "

  function CoursesText(courseLines: seq<Line>): string
  {
    CoursesPrefix + SectionText(courseLines)
  }

  /** `findIndex` for the first University entry. */
  function FirstUniversity(all: seq<ResumeEducation>): (r: Option<nat>)
    ensures r.Some? ==> r.value < |all| && all[r.value].educationType == University
                        && forall j :: 0 <= j < r.value ==> all[j].educationType != University
    ensures r.None? ==> forall j :: 0 <= j < |all| ==> all[j].educationType != University
  {
    if all == [] then None
    else if all[0].educationType == University then Some(0)
    else match FirstUniversity(all[1..])
      case None => None
      case Some(k) => Some(k + 1)
  }

  function CoursesTarget(all: seq<ResumeEducation>): nat
  {
    match FirstUniversity(all)
    case Some(k) => k
    case None => 0
  }

  function WithCourses(all: seq<ResumeEducation>, courseLines: seq<Line>): seq<ResumeEducation>
  {
    if |all| != 0 && |courseLines| != 0 then
      var k := CoursesTarget(all);
      all[k := all[k].(descriptions := all[k].descriptions + [CoursesText(courseLines)])]
    else all
  }

  /** With entries and a course section, exactly one "Courses: " line is
      appended, to the first University entry or else to entry 0, and
      nothing else changes; otherwise nothing changes. */
  lemma WithCoursesSpec(all: seq<ResumeEducation>, courseLines: seq<Line>)
    ensures var r := WithCourses(all, courseLines);
      && |r| == |all|
      && (forall i :: 0 <= i < |all| ==> r[i].educationType == all[i].educationType)
      && (|all| == 0 || |courseLines| == 0 ==> r == all)
      && (|all| != 0 && |courseLines| != 0 ==>
            var k := CoursesTarget(all);
            && (if exists j :: 0 <= j < |all| && all[j].educationType == University
                then all[k].educationType == University
                     && forall j :: 0 <= j < k ==> all[j].educationType != University
                else k == 0)
            && r[k] == all[k].(descriptions := all[k].descriptions + [CoursesText(courseLines)])
            && forall i :: 0 <= i < |all| && i != k ==> r[i] == all[i])
  {
  }

  // ---------------------------------------------------------------------
  // One entry per type

  /** The entries of a type, in order (the `educationsByType` buckets). */
  function OfType(all: seq<ResumeEducation>, t: EducationType): (r: seq<ResumeEducation>)
    ensures |r| <= |all|
    ensures forall i :: 0 <= i < |r| ==> r[i].educationType == t && r[i] in all
    decreases |all|
  {
    if all == [] then []
    else
      var last := all[|all| - 1];
      OfType(all[..|all| - 1], t) + (if last.educationType == t then [last] else [])
  }

  /** Some entry of the list has type `t`. */
  predicate HasEntry(s: seq<ResumeEducation>, t: EducationType)
  {
    exists i :: 0 <= i < |s| && s[i].educationType == t
  }

  function HasType(t: EducationType): ResumeEducation -> bool
  {
    (e: ResumeEducation) => e.educationType == t
  }

  /** The bucket built by pushing entry after entry is the filter of the
      entries by type. */
  lemma {:induction false} OfTypeIsFilter(all: seq<ResumeEducation>, t: EducationType)
    ensures OfType(all, t) == StableSort.Filter(all, HasType(t))
    decreases |all|
  {
    if all != [] {
      var front, last := all[..|all| - 1], all[|all| - 1];
      OfTypeIsFilter(front, t);
      assert all == front + [last];
      StableSort.FilterSnoc(front, last, HasType(t));
    }
  }

  /** A bucket holds every entry of its type and no other, in the order of
      the list, and it is empty exactly when no entry has that type. */
  lemma OfTypeSpec(all: seq<ResumeEducation>, t: EducationType)
    ensures StableSort.SubsequenceOf(OfType(all, t), all)
    ensures forall e :: e in OfType(all, t) <==> e in all && e.educationType == t
    ensures OfType(all, t) != [] <==> exists i :: 0 <= i < |all| && all[i].educationType == t
  {
    OfTypeIsFilter(all, t);
    StableSort.FilterSpec(all, HasType(t));
    var r := OfType(all, t);
    if r != [] {
      assert r[0] in all;
    }
    if i :| 0 <= i < |all| && all[i].educationType == t {
      assert all[i] in r;
    }
  }

  /** The comparator's order as a score: a school counts most, then (for
      University only) a degree other than the generic one, then a GPA. */
  function Merit(e: ResumeEducation, university: bool): nat
  {
    (if e.school != "" then 4 else 0)
    + (if university && e.degree != GenericDegree then 2 else 0)
    + (if e.gpa != "" then 1 else 0)
  }

  /** "a sorts no later than b" under the comparator of the given type. */
  function MeritLe(university: bool): (ResumeEducation, ResumeEducation) -> bool
  {
    (a: ResumeEducation, b: ResumeEducation) => Merit(a, university) >= Merit(b, university)
  }

  /** The entry kept for a bucket: the head of the sorted copy when there
      are several, the single entry when there is one, none when empty. */
  function Pick(bucket: seq<ResumeEducation>, university: bool): (r: seq<ResumeEducation>)
    ensures |r| <= 1
    ensures |r| == 1 <==> bucket != []
  {
    if |bucket| > 1 then
      StableSort.SortByPermutation(bucket, MeritLe(university));
      [StableSort.SortBy(bucket, MeritLe(university))[0]]
    else if |bucket| == 1 then [bucket[0]]
    else []
  }

  function Picks(all: seq<ResumeEducation>): seq<ResumeEducation>
  {
    Pick(OfType(all, University), true) + Pick(OfType(all, Twelfth), false) + Pick(OfType(all, Tenth), false)
  }

  /** The typed picks, then as many untyped entries as fit in three. */
  function Fill(picks: seq<ResumeEducation>, others: seq<ResumeEducation>): seq<ResumeEducation>
  {
    if |picks| < 3 then
      var room := 3 - |picks|;
      picks + others[..if room <= |others| then room else |others|]
    else picks
  }

  function Selected(all: seq<ResumeEducation>): seq<ResumeEducation>
  {
    Fill(Picks(all), OfType(all, Other))
  }

  function TypeLe(): (ResumeEducation, ResumeEducation) -> bool
  {
    (a: ResumeEducation, b: ResumeEducation) => TypeRank(a.educationType) <= TypeRank(b.educationType)
  }

  /** The default-name pass over the final list. */
  function WithDefaultDegree(e: ResumeEducation): (r: ResumeEducation)
  {
    if e.educationType == University && e.degree == "" then e.(degree := GenericDegree)
    else if e.educationType == Twelfth && e.degree == "" then e.(degree := HigherSecondaryDegree)
    else if e.educationType == Tenth && e.degree == "" then e.(degree := SecondaryDegree)
    else e
  }

  function WithDefaultDegrees(s: seq<ResumeEducation>): (r: seq<ResumeEducation>)
    ensures |r| == |s|
  {
    seq(|s|, i requires 0 <= i < |s| => WithDefaultDegree(s[i]))
  }

  function Finalize(all: seq<ResumeEducation>): seq<ResumeEducation>
  {
    var named := WithDefaultDegrees(StableSort.SortBy(Selected(all), TypeLe()));
    named[..if |named| <= 3 then |named| else 3]
  }

  /** `extractEducation`'s result for the subsections, the course lines and
      the bullet-point helper. */
  function ExtractedEducations(subs: seq<Subsection>, courseLines: seq<Line>, bullets: seq<Line> -> seq<string>): seq<ResumeEducation>
  {
    Finalize(WithCourses(EducationsOf(subs, bullets), courseLines))
  }

  /** The first loop: one entry per subsection, in order. */
  method BuildEducations(subs: seq<Subsection>, bullets: seq<Line> -> seq<string>)
    returns (allEducations: seq<ResumeEducation>)
    ensures allEducations == EducationsOf(subs, bullets)
  {
    allEducations := [];
    for i := 0 to |subs|
      invariant allEducations == EducationsOf(subs[..i], bullets)
    {
      var e := BuildEducation(subs[i], bullets);
      assert EducationsOf(subs[..i + 1], bullets) == EducationsOf(subs[..i], bullets) + [e];
      allEducations := allEducations + [e];
    }
    assert subs[..|subs|] == subs;
  }

  /** The body of the first loop: the entry of one subsection. */
  method BuildEducation(sub: Subsection, bullets: seq<Line> -> seq<string>) returns (e: ResumeEducation)
    ensures e == EducationOf(sub, bullets)
  {
    var descriptions: seq<string> := [];
    if sub.descriptionsLineIdx.Some? {
      var idx := sub.descriptionsLineIdx.value;
      descriptions := bullets(sub.lines[(if idx <= |sub.lines| then idx else |sub.lines|)..]);
    }
    var educationType := DetermineEducationType(sub.universityScores, sub.class12Scores, sub.class10Scores);
    var finalSchool := FinalSchool(sub, educationType);
    var finalDegree := FinalDegree(sub, educationType);
    e := ResumeEducation(finalSchool, finalDegree, sub.gpa, sub.date, descriptions, educationType);
  }

  /** The bucketing loop: every entry goes to the bucket of its type. */
  method GroupByType(allEducations: seq<ResumeEducation>)
    returns (universities: seq<ResumeEducation>, class12s: seq<ResumeEducation>,
             class10s: seq<ResumeEducation>, others: seq<ResumeEducation>)
    ensures universities == OfType(allEducations, University)
    ensures class12s == OfType(allEducations, Twelfth)
    ensures class10s == OfType(allEducations, Tenth)
    ensures others == OfType(allEducations, Other)
  {
    universities, class12s, class10s, others := [], [], [], [];
    for i := 0 to |allEducations|
      invariant universities == OfType(allEducations[..i], University)
      invariant class12s == OfType(allEducations[..i], Twelfth)
      invariant class10s == OfType(allEducations[..i], Tenth)
      invariant others == OfType(allEducations[..i], Other)
    {
      assert allEducations[..i + 1][..i] == allEducations[..i];
      var e := allEducations[i];
      match e.educationType
      case University => universities := universities + [e];
      case Twelfth => class12s := class12s + [e];
      case Tenth => class10s := class10s + [e];
      case Other => others := others + [e];
    }
    assert allEducations[..|allEducations|] == allEducations;
  }

  /** The default-name loop, rewriting each entry's degree in place. */
  method NameDefaults(finalEducations: seq<ResumeEducation>) returns (named: seq<ResumeEducation>)
    ensures named == WithDefaultDegrees(finalEducations)
  {
    named := finalEducations;
    for i := 0 to |named|
      invariant |named| == |finalEducations|
      invariant forall j :: 0 <= j < i ==> named[j] == WithDefaultDegree(finalEducations[j])
      invariant forall j :: i <= j < |named| ==> named[j] == finalEducations[j]
    {
      var e := named[i];
      if e.educationType == University && e.degree == "" {
        e := e.(degree := GenericDegree);
      } else if e.educationType == Twelfth && e.degree == "" {
        e := e.(degree := HigherSecondaryDegree);
      } else if e.educationType == Tenth && e.degree == "" {
        e := e.(degree := SecondaryDegree);
      }
      named := named[i := e];
    }
    assert forall j :: 0 <= j < |named| ==> named[j] == WithDefaultDegrees(finalEducations)[j];
  }

  method ExtractEducation(subs: seq<Subsection>, courseLines: seq<Line>, bullets: seq<Line> -> seq<string>)
    returns (educations: seq<ResumeEducation>)
    ensures educations == ExtractedEducations(subs, courseLines, bullets)
  {
    var allEducations := BuildEducations(subs, bullets);
    if |allEducations| != 0 && |courseLines| != 0 {
      var target := CoursesTarget(allEducations);
      var e := allEducations[target];
      allEducations := allEducations[target := e.(descriptions := e.descriptions + [CoursesText(courseLines)])];
    }
    assert allEducations == WithCourses(EducationsOf(subs, bullets), courseLines);
    educations := SelectAndOrder(allEducations);
  }

  /** Buckets, one pick per type, untyped fill-up, ordering, default
      names and the cap, on the list of all entries. */
  method SelectAndOrder(allEducations: seq<ResumeEducation>) returns (educations: seq<ResumeEducation>)
    ensures educations == Finalize(allEducations)
  {
    var universities, class12s, class10s, others := GroupByType(allEducations);
    var picks := Pick(universities, true) + Pick(class12s, false) + Pick(class10s, false);
    assert picks == Picks(allEducations);
    var finalEducations := picks;
    if |picks| < 3 {
      var remaining := 3 - |picks|;
      finalEducations := picks + others[..if remaining <= |others| then remaining else |others|];
    }
    assert finalEducations == Fill(picks, others);

    finalEducations := StableSort.SortBy(finalEducations, TypeLe());
    finalEducations := NameDefaults(finalEducations);
    educations := finalEducations[..if |finalEducations| <= 3 then |finalEducations| else 3];
  }

  // ---------------------------------------------------------------------
  // Properties of the final list

  /** Entries ordered by type, where only untyped entries may share one. */
  predicate Layered(r: seq<ResumeEducation>)
  {
    forall i, j :: 0 <= i < j < |r| ==>
      TypeRank(r[i].educationType) < TypeRank(r[j].educationType)
      || (r[i].educationType == Other && r[j].educationType == Other)
  }

  lemma LayeredAppend(a: seq<ResumeEducation>, b: seq<ResumeEducation>)
    requires Layered(a) && Layered(b)
    requires forall i, j :: 0 <= i < |a| && 0 <= j < |b| ==>
      TypeRank(a[i].educationType) < TypeRank(b[j].educationType)
      || (a[i].educationType == Other && b[j].educationType == Other)
    ensures Layered(a + b)
  {
    var r := a + b;
    forall i, j | 0 <= i < j < |r|
      ensures TypeRank(r[i].educationType) < TypeRank(r[j].educationType)
              || (r[i].educationType == Other && r[j].educationType == Other)
    {
      if j < |a| {
        assert r[i] == a[i] && r[j] == a[j];
      } else if i >= |a| {
        assert r[i] == b[i - |a|] && r[j] == b[j - |a|];
      } else {
        assert r[i] == a[i] && r[j] == b[j - |a|];
      }
    }
  }

  /** The kept entry of a bucket is one of its entries. */
  lemma PickFromBucket(all: seq<ResumeEducation>, t: EducationType, university: bool)
    ensures forall i :: 0 <= i < |Pick(OfType(all, t), university)| ==>
      Pick(OfType(all, t), university)[i].educationType == t
      && Pick(OfType(all, t), university)[i] in all
  {
    var bucket := OfType(all, t);
    if |bucket| > 1 {
      StableSort.SortByPermutation(bucket, MeritLe(university));
      var h := StableSort.SortBy(bucket, MeritLe(university))[0];
      assert h in multiset(StableSort.SortBy(bucket, MeritLe(university)));
      assert h in bucket;
    }
  }

  lemma MeritLeTotal(university: bool)
    ensures StableSort.TotalPreorder(MeritLe(university))
  {
  }

  /** The kept entry of a type is the earliest entry of highest merit:
      a school first, then (University only) a degree other than
      "Bachelor's Degree", then a GPA; every entry before it in the bucket
      has strictly lower merit. */
  lemma PickIsBest(bucket: seq<ResumeEducation>, university: bool)
    requires bucket != []
    ensures exists i :: && 0 <= i < |bucket| && Pick(bucket, university) == [bucket[i]]
                        && (forall j :: 0 <= j < |bucket| ==> Merit(bucket[j], university) <= Merit(bucket[i], university))
                        && (forall j :: 0 <= j < i ==> Merit(bucket[j], university) < Merit(bucket[i], university))
  {
    if |bucket| > 1 {
      MeritLeTotal(university);
      StableSort.SortByHead(bucket, MeritLe(university));
      var i :| 0 <= i < |bucket| && bucket[i] == StableSort.SortBy(bucket, MeritLe(university))[0]
               && (forall j :: 0 <= j < |bucket| ==> MeritLe(university)(bucket[i], bucket[j]))
               && (forall j :: 0 <= j < i ==> !MeritLe(university)(bucket[j], bucket[i]));
      assert Pick(bucket, university) == [bucket[i]];
    } else {
      assert Pick(bucket, university) == [bucket[0]];
    }
  }

  lemma PicksTypes(all: seq<ResumeEducation>)
    ensures |Picks(all)| <= 3
    ensures forall i :: 0 <= i < |Picks(all)| ==> Picks(all)[i].educationType != Other && Picks(all)[i] in all
  {
    var p1, p2, p3 := Pick(OfType(all, University), true), Pick(OfType(all, Twelfth), false), Pick(OfType(all, Tenth), false);
    PickFromBucket(all, University, true);
    PickFromBucket(all, Twelfth, false);
    PickFromBucket(all, Tenth, false);
    var p := Picks(all);
    assert p == p1 + p2 + p3;
    forall i | 0 <= i < |p|
      ensures p[i].educationType != Other && p[i] in all
    {
      if i < |p1| {
        assert p[i] == p1[i];
      } else if i < |p1| + |p2| {
        assert p[i] == p2[i - |p1|];
      } else {
        assert p[i] == p3[i - |p1| - |p2|];
      }
    }
  }

  /** The three picks, one of each school type, in type order. */
  predicate PickShape(p1: seq<ResumeEducation>, p2: seq<ResumeEducation>, p3: seq<ResumeEducation>)
  {
    && |p1| <= 1 && |p2| <= 1 && |p3| <= 1
    && (forall i :: 0 <= i < |p1| ==> p1[i].educationType == University)
    && (forall i :: 0 <= i < |p2| ==> p2[i].educationType == Twelfth)
    && (forall i :: 0 <= i < |p3| ==> p3[i].educationType == Tenth)
  }

  lemma PickShapeOf(all: seq<ResumeEducation>)
    ensures PickShape(Pick(OfType(all, University), true), Pick(OfType(all, Twelfth), false), Pick(OfType(all, Tenth), false))
  {
    PickFromBucket(all, University, true);
    PickFromBucket(all, Twelfth, false);
    PickFromBucket(all, Tenth, false);
  }

  lemma ThreeLayered(p1: seq<ResumeEducation>, p2: seq<ResumeEducation>, p3: seq<ResumeEducation>)
    requires PickShape(p1, p2, p3)
    ensures Layered(p1 + p2 + p3)
  {
    LayeredAppend(p1, p2);
    LayeredAppend(p1 + p2, p3);
  }

  lemma ThreePresence(p1: seq<ResumeEducation>, p2: seq<ResumeEducation>, p3: seq<ResumeEducation>, t: EducationType)
    requires PickShape(p1, p2, p3) && t != Other
    ensures var p := p1 + p2 + p3;
      (exists i :: 0 <= i < |p| && p[i].educationType == t)
      <==> (if t == University then p1 != [] else if t == Twelfth then p2 != [] else p3 != [])
  {
    var p := p1 + p2 + p3;
    if exists i :: 0 <= i < |p| && p[i].educationType == t {
      var i :| 0 <= i < |p| && p[i].educationType == t;
      if i < |p1| {
        assert p[i] == p1[i];
      } else if i < |p1| + |p2| {
        assert p[i] == p2[i - |p1|];
      } else {
        assert p[i] == p3[i - |p1| - |p2|];
      }
    }
    if t == University && p1 != [] {
      assert p[0] == p1[0];
    } else if t == Twelfth && p2 != [] {
      assert p[|p1|] == p2[0];
    } else if t == Tenth && p3 != [] {
      assert p[|p1| + |p2|] == p3[0];
    }
  }

  lemma PicksLayered(all: seq<ResumeEducation>)
    ensures Layered(Picks(all))
  {
    PickShapeOf(all);
    ThreeLayered(Pick(OfType(all, University), true), Pick(OfType(all, Twelfth), false), Pick(OfType(all, Tenth), false));
  }

  lemma PicksPresence(all: seq<ResumeEducation>, t: EducationType)
    requires t != Other
    ensures HasEntry(Picks(all), t) <==> HasEntry(all, t)
  {
    OfTypeSpec(all, t);
    var p1, p2, p3 := Pick(OfType(all, University), true), Pick(OfType(all, Twelfth), false), Pick(OfType(all, Tenth), false);
    PickShapeOf(all);
    ThreePresence(p1, p2, p3, t);
    assert Picks(all) == p1 + p2 + p3;
    if t == University {
      assert p1 != [] <==> OfType(all, t) != [];
    } else if t == Twelfth {
      assert p2 != [] <==> OfType(all, t) != [];
    } else {
      assert p3 != [] <==> OfType(all, t) != [];
    }
  }

  /** The number of untyped entries that fill up the list. */
  function OtherRoom(all: seq<ResumeEducation>): nat
  {
    var p, o := Picks(all), OfType(all, Other);
    if |p| < 3 then (if 3 - |p| <= |o| then 3 - |p| else |o|) else 0
  }

  lemma WithDefaultDegreesKeepsType(s: seq<ResumeEducation>)
    ensures forall i :: 0 <= i < |s| ==>
      WithDefaultDegrees(s)[i].educationType == s[i].educationType
      && (s[i].educationType == Other ==> WithDefaultDegrees(s)[i] == s[i])
      && (s[i].educationType != Other ==> WithDefaultDegrees(s)[i].degree != "")
  {
  }

  /** The selection is already in type order, so the sort leaves it
      as it is, and it never exceeds three, so the cap cuts nothing. */
  lemma FinalizeIsNamedSelection(all: seq<ResumeEducation>)
    ensures |Selected(all)| == |Picks(all)| + OtherRoom(all) <= 3
    ensures Selected(all) == Picks(all) + OfType(all, Other)[..OtherRoom(all)]
    ensures Layered(Selected(all))
    ensures Finalize(all) == WithDefaultDegrees(Selected(all))
  {
    var p, o := Picks(all), OfType(all, Other);
    var sel := Selected(all);
    var n := OtherRoom(all);
    PicksTypes(all);
    PicksLayered(all);
    assert sel == p + o[..n];
    assert Layered(o[..n]) by {
      assert forall i :: 0 <= i < n ==> o[..n][i].educationType == Other;
    }
    LayeredAppend(p, o[..n]);
    assert StableSort.Sorted(sel, TypeLe()) by {
      forall i, j | 0 <= i < j < |sel|
        ensures TypeRank(sel[i].educationType) <= TypeRank(sel[j].educationType)
      {
      }
    }
    StableSort.SortBySortedUnchanged(sel, TypeLe());
  }

  lemma FinalizeTyped(all: seq<ResumeEducation>)
    ensures |Finalize(all)| == |Picks(all)| + OtherRoom(all) <= 3
    ensures forall i :: 0 <= i < |Picks(all)| ==>
      Finalize(all)[i] == WithDefaultDegree(Picks(all)[i])
      && Finalize(all)[i].educationType != Other && Finalize(all)[i].degree != ""
  {
    FinalizeIsNamedSelection(all);
    PicksTypes(all);
    var p := Picks(all);
    var sel := Selected(all);
    WithDefaultDegreesKeepsType(sel);
    forall i | 0 <= i < |p|
      ensures Finalize(all)[i] == WithDefaultDegree(p[i])
    {
      assert sel[i] == p[i];
    }
  }

  /** The default-name pass leaves untyped entries as they are. */
  lemma NamedOthers(p: seq<ResumeEducation>, o: seq<ResumeEducation>, r: seq<ResumeEducation>)
    requires forall i :: 0 <= i < |o| ==> o[i].educationType == Other
    requires r == WithDefaultDegrees(p + o)
    ensures |p| <= |r| && r[|p|..] == o
  {
    forall i | 0 <= i < |o|
      ensures r[|p| + i] == o[i]
    {
      assert (p + o)[|p| + i] == o[i];
    }
  }

  lemma FinalizeOthers(all: seq<ResumeEducation>)
    ensures |Picks(all)| <= |Finalize(all)|
    ensures Finalize(all)[|Picks(all)|..] == OfType(all, Other)[..OtherRoom(all)]
  {
    var o := FinalizeNamed(all);
    NamedOthers(Picks(all), o, Finalize(all));
  }

  lemma FinalizeLayered(all: seq<ResumeEducation>)
    ensures Layered(Finalize(all))
  {
    FinalizeIsNamedSelection(all);
    var sel := Selected(all);
    var named := WithDefaultDegrees(sel);
    WithDefaultDegreesKeepsType(sel);
    forall i, j | 0 <= i < j < |named|
      ensures TypeRank(named[i].educationType) < TypeRank(named[j].educationType)
              || (named[i].educationType == Other && named[j].educationType == Other)
    {
      assert named[i].educationType == sel[i].educationType;
      assert named[j].educationType == sel[j].educationType;
    }
  }

  /** The default-name pass keeps every type, so a school type occurs in
      the named list exactly when it occurs among the picks. */
  lemma NamedPresence(p: seq<ResumeEducation>, o: seq<ResumeEducation>, r: seq<ResumeEducation>, t: EducationType)
    requires t != Other
    requires forall i :: 0 <= i < |o| ==> o[i].educationType == Other
    requires r == WithDefaultDegrees(p + o)
    ensures HasEntry(r, t) <==> HasEntry(p, t)
  {
    var sel := p + o;
    WithDefaultDegreesKeepsType(sel);
    if exists i :: 0 <= i < |r| && r[i].educationType == t {
      var i :| 0 <= i < |r| && r[i].educationType == t;
      assert sel[i].educationType == t;
      assert sel[i] == p[i];
    }
    if exists i :: 0 <= i < |p| && p[i].educationType == t {
      var i :| 0 <= i < |p| && p[i].educationType == t;
      assert sel[i] == p[i];
      assert r[i].educationType == t;
    }
  }

  lemma FinalizePresence(all: seq<ResumeEducation>, t: EducationType)
    requires t != Other
    ensures HasEntry(Finalize(all), t) <==> HasEntry(all, t)
  {
    var o := FinalizeNamed(all);
    PicksPresence(all, t);
    NamedPresence(Picks(all), o, Finalize(all), t);
  }

  /** The final list is the picks and the fitting untyped entries, named. */
  lemma FinalizeNamed(all: seq<ResumeEducation>) returns (o: seq<ResumeEducation>)
    ensures o == OfType(all, Other)[..OtherRoom(all)]
    ensures forall i :: 0 <= i < |o| ==> o[i].educationType == Other
    ensures Finalize(all) == WithDefaultDegrees(Picks(all) + o)
  {
    FinalizeOfSelection(all);
    o := OfType(all, Other)[..OtherRoom(all)];
    assert forall i :: 0 <= i < |o| ==> o[i].educationType == Other;
  }

  lemma FinalizeOfSelection(all: seq<ResumeEducation>)
    ensures Finalize(all) == WithDefaultDegrees(Picks(all) + OfType(all, Other)[..OtherRoom(all)])
  {
    FinalizeIsNamedSelection(all);
  }

  /** The shape of the final list:
      - the kept entry of each school type whose bucket is non-empty, and
        no other entry of that type, in the order University, 12th, 10th;
      - then the first untyped entries, untouched and in their original
        order, as many as fit in three;
      - every school-type entry has a degree. */
  lemma FinalizeSpec(all: seq<ResumeEducation>)
    ensures var r, p, o := Finalize(all), Picks(all), OfType(all, Other);
      && |r| == |p| + OtherRoom(all) <= 3
      && (forall i :: 0 <= i < |p| ==> r[i] == WithDefaultDegree(p[i]) && r[i].educationType != Other && r[i].degree != "")
      && r[|p|..] == o[..OtherRoom(all)]
      && Layered(r)
      && (forall t :: t != Other ==> (HasEntry(r, t) <==> HasEntry(all, t)))
  {
    FinalizeTyped(all);
    FinalizeOthers(all);
    FinalizeLayered(all);
    forall t | t != Other
      ensures HasEntry(Finalize(all), t) <==> HasEntry(all, t)
    {
      FinalizePresence(all, t);
    }
  }

  /** The entries built from subsections never need the default-name pass:
      it changes nothing on them. */
  lemma BuiltEntriesHaveDegrees(subs: seq<Subsection>, bullets: seq<Line> -> seq<string>)
    ensures forall i :: 0 <= i < |subs| ==>
      WithDefaultDegree(EducationsOf(subs, bullets)[i]) == EducationsOf(subs, bullets)[i]
  {
    forall i | 0 <= i < |subs|
      ensures WithDefaultDegree(EducationsOf(subs, bullets)[i]) == EducationsOf(subs, bullets)[i]
    {
      var sub := subs[i];
      FinalDegreeSpec(sub, TypeOfScores(sub.universityScores, sub.class12Scores, sub.class10Scores));
    }
  }
}

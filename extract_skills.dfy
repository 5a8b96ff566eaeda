/** The skills extractor of
    `src/app/lib/parse-resume-from-pdf/extract-resume-from-sections/extract-skills.ts`:
    filling the featured-skill slots from the lines before the bullet
    points, and matching the bullet text against a known-skills list. The
    section lookup, the description index, the bullet-point reader and the
    initial featured skills are inputs. */
module ExtractSkills {
  import opened Wrappers
  import opened Strings
  import opened StableSort
  import opened ResumeLines

  datatype FeaturedSkill = FeaturedSkill(skill: string, rating: int)

  datatype ResumeSkills = ResumeSkills(featuredSkills: seq<FeaturedSkill>, descriptions: seq<string>)

  /** At most this many header items become featured skills. */
  const MaxFeatured: nat := 6

  /** Message of the TypeError thrown when a header item has no slot. */
  const MissingSlot := "featured skill slot missing"

  function IndexOrZero(descriptionsLineIdx: Option<nat>): nat
  {
    match descriptionsLineIdx case Some(k) => k case None => 0
  }

  /** Where `lines.slice(idx)` starts and `lines.slice(0, idx)` ends. */
  function SliceEnd(idx: nat, len: nat): (k: nat)
    ensures k <= len
    ensures idx <= len ==> k == idx
  {
    if idx <= len then idx else len
  }

  /** The texts of the first six non-blank items of the header lines,
      untrimmed. */
  function FeaturedTexts(headerLines: seq<Line>): (r: seq<string>)
    ensures |r| <= MaxFeatured
  {
    var items := NonBlank(Flatten(headerLines));
    items[..if |items| <= MaxFeatured then |items| else MaxFeatured]
  }

  /** The header texts the featured slots receive for this section. */
  function SlotTexts(lines: seq<Line>, descriptionsLineIdx: Option<nat>): seq<string>
  {
    var idx := IndexOrZero(descriptionsLineIdx);
    if idx != 0 then FeaturedTexts(lines[..SliceEnd(idx, |lines|)]) else []
  }

  /** What `extractSkills` returns: slot i of the initial featured skills
      takes the i-th header text; a header text without a slot throws. */
  function ExtractedSkills(lines: seq<Line>, descriptionsLineIdx: Option<nat>,
                           initialFeaturedSkills: seq<FeaturedSkill>, bullets: seq<Line> -> seq<string>)
    : Result<ResumeSkills, string>
  {
    var idx := IndexOrZero(descriptionsLineIdx);
    var descriptions := bullets(lines[SliceEnd(idx, |lines|)..]);
    var texts := SlotTexts(lines, descriptionsLineIdx);
    if |texts| > |initialFeaturedSkills| then Failure(MissingSlot)
    else
      var featured := seq(|initialFeaturedSkills|, i requires 0 <= i < |initialFeaturedSkills| =>
        if i < |texts| then initialFeaturedSkills[i].(skill := texts[i]) else initialFeaturedSkills[i]);
      Success(ResumeSkills(featured, descriptions))
  }

  method ExtractSkills(lines: seq<Line>, descriptionsLineIdx: Option<nat>,
                       initialFeaturedSkills: seq<FeaturedSkill>, bullets: seq<Line> -> seq<string>)
    returns (r: Result<ResumeSkills, string>)
    ensures r == ExtractedSkills(lines, descriptionsLineIdx, initialFeaturedSkills, bullets)
  {
    var idx := IndexOrZero(descriptionsLineIdx);
    var descriptions := bullets(lines[SliceEnd(idx, |lines|)..]);
    var texts := SlotTexts(lines, descriptionsLineIdx);
    var featuredSkills := initialFeaturedSkills;
    for i := 0 to |texts|
      invariant i <= |featuredSkills| == |initialFeaturedSkills|
      invariant forall j :: 0 <= j < |featuredSkills| ==>
        featuredSkills[j] == if j < i then initialFeaturedSkills[j].(skill := texts[j]) else initialFeaturedSkills[j]
    {
      if i >= |featuredSkills| {
        return Failure(MissingSlot);
      }
      featuredSkills := featuredSkills[i := featuredSkills[i].(skill := texts[i])];
    }
    assert featuredSkills == seq(|initialFeaturedSkills|, i requires 0 <= i < |initialFeaturedSkills| =>
      if i < |texts| then initialFeaturedSkills[i].(skill := texts[i]) else initialFeaturedSkills[i]);
    return Success(ResumeSkills(featuredSkills, descriptions));
  }

  /** Without a bullet line the index is 0: the featured skills keep their
      initial value and every line goes to the bullet reader. */
  lemma NoIndexKeepsFeatured(lines: seq<Line>, descriptionsLineIdx: Option<nat>,
                             initialFeaturedSkills: seq<FeaturedSkill>, bullets: seq<Line> -> seq<string>)
    requires IndexOrZero(descriptionsLineIdx) == 0
    ensures ExtractedSkills(lines, descriptionsLineIdx, initialFeaturedSkills, bullets)
            == Success(ResumeSkills(initialFeaturedSkills, bullets(lines)))
  {
    assert lines[0..] == lines;
    var r := ExtractedSkills(lines, descriptionsLineIdx, initialFeaturedSkills, bullets);
    assert SlotTexts(lines, descriptionsLineIdx) == [];
    assert r.value.descriptions == bullets(lines);
    assert r.value.featuredSkills == initialFeaturedSkills;
  }

  /** The i-th featured text is the i-th non-blank item of the header lines,
      and there are min(6, count) of them. */
  lemma FeaturedTextsSpec(headerLines: seq<Line>)
    ensures var items := NonBlank(Flatten(headerLines));
      && |FeaturedTexts(headerLines)| == (if |items| < MaxFeatured then |items| else MaxFeatured)
      && forall i :: 0 <= i < |FeaturedTexts(headerLines)| ==> FeaturedTexts(headerLines)[i] == items[i]
  {
  }

  /** With enough slots, slot i holds header text i for i below the number
      of texts, every other slot is untouched, ratings never change, and the
      descriptions come from the lines at or after the index only. */
  lemma FeaturedSlots(lines: seq<Line>, descriptionsLineIdx: Option<nat>,
                      initialFeaturedSkills: seq<FeaturedSkill>, bullets: seq<Line> -> seq<string>)
    ensures var r := ExtractedSkills(lines, descriptionsLineIdx, initialFeaturedSkills, bullets);
      var texts := SlotTexts(lines, descriptionsLineIdx);
      && (r.Success? <==> |texts| <= |initialFeaturedSkills|)
      && (r.Success? ==>
            && |r.value.featuredSkills| == |initialFeaturedSkills|
            && (forall i :: 0 <= i < |texts| ==> r.value.featuredSkills[i].skill == texts[i])
            && (forall i :: |texts| <= i < |initialFeaturedSkills| ==> r.value.featuredSkills[i] == initialFeaturedSkills[i])
            && (forall i :: 0 <= i < |initialFeaturedSkills| ==>
                  r.value.featuredSkills[i].rating == initialFeaturedSkills[i].rating))
  {
  }

  /** The descriptions do not depend on the lines before the index. */
  lemma DescriptionsAfterIndex(lines1: seq<Line>, lines2: seq<Line>, idx: nat,
                               initial: seq<FeaturedSkill>, bullets: seq<Line> -> seq<string>)
    requires idx <= |lines1| && idx <= |lines2| && lines1[idx..] == lines2[idx..]
    requires |initial| >= MaxFeatured
    ensures ExtractedSkills(lines1, Some(idx), initial, bullets).value.descriptions
            == ExtractedSkills(lines2, Some(idx), initial, bullets).value.descriptions
  {
  }

  // ---------------------------------------------------------------------
  // Matching against the known-skills list

  /** `text.split('\n').slice(1).map(line => line.trim()).filter(Boolean)`:
      the entries of the known-skills file after its header line. */
  function KnownSkills(csv: string): (r: seq<string>)
    ensures forall i :: 0 <= i < |r| ==> r[i] != [] && IsTrimmed(r[i])
  {
    TrimmedItems(Split(csv, {'\n'})[1..])
  }

  /** Whatever the first line holds, it is skipped. */
  lemma KnownSkillsSkipsHeader(header: string, rest: string)
    requires NoneIn(header, {'\n'})
    ensures KnownSkills(header + "\n" + rest) == TrimmedItems(Split(rest, {'\n'}))
  {
    SplitOne(header, '\n', rest);
  }

  /** The lowercased, space-joined descriptions the skills are looked up in. */
  function FullText(descriptions: seq<string>): string
  {
    ToLower(Join(descriptions, " "))
  }

  /** Known skills of two characters or fewer are skipped. */
  const MinSkillLength: nat := 3

  /** The regular expression's word-boundary match implies that the
      lowercased skill is a substring of the text, so the `includes` test
      decides alone. */
  predicate Found(fullText: string, skill: string)
  {
    |skill| >= MinSkillLength && Contains(fullText, ToLower(skill))
  }

  /** The known skills found in the text, in list order, with repeats. */
  function FoundSkills(fullText: string, known: seq<string>): (r: seq<string>)
    ensures |r| <= |known|
    decreases |known|
  {
    if known == [] then []
    else
      var rest := FoundSkills(fullText, known[..|known| - 1]);
      var skill := known[|known| - 1];
      if Found(fullText, skill) then rest + [skill] else rest
  }

  lemma {:induction false} FoundSkillsMember(fullText: string, known: seq<string>, x: string)
    ensures x in FoundSkills(fullText, known) <==> x in known && Found(fullText, x)
    decreases |known|
  {
    if known != [] {
      var p := known[..|known| - 1];
      FoundSkillsMember(fullText, p, x);
      assert known == p + [known[|known| - 1]];
    }
  }

  lemma FoundSkillsSnoc(fullText: string, known: seq<string>, i: nat)
    requires i < |known|
    ensures FoundSkills(fullText, known[..i + 1])
            == FoundSkills(fullText, known[..i]) + (if Found(fullText, known[i]) then [known[i]] else [])
  {
    assert known[..i + 1][..i] == known[..i];
  }

  /** JavaScript's default string order: lexicographic on character codes,
      a proper prefix first. */
  predicate StrLe(a: string, b: string)
    decreases |a|
  {
    a == [] || (b != [] && (a[0] < b[0] || (a[0] == b[0] && StrLe(a[1..], b[1..]))))
  }

  lemma {:induction false} StrLeTotal(a: string, b: string)
    ensures StrLe(a, b) || StrLe(b, a)
    decreases |a|
  {
    if a != [] && b != [] && a[0] == b[0] {
      StrLeTotal(a[1..], b[1..]);
    }
  }

  lemma {:induction false} StrLeTrans(a: string, b: string, c: string)
    requires StrLe(a, b) && StrLe(b, c)
    ensures StrLe(a, c)
    decreases |a|
  {
    if a != [] && a[0] == b[0] && b[0] == c[0] {
      StrLeTrans(a[1..], b[1..], c[1..]);
    }
  }

  lemma {:induction false} StrLeAntisymmetric(a: string, b: string)
    requires StrLe(a, b) && StrLe(b, a)
    ensures a == b
    decreases |a|
  {
    if a != [] {
      StrLeAntisymmetric(a[1..], b[1..]);
      assert a == [a[0]] + a[1..] && b == [b[0]] + b[1..];
    }
  }

  lemma StrLeTotalPreorder()
    ensures TotalPreorder(StrLe)
  {
    forall a, b ensures StrLe(a, b) || StrLe(b, a) {
      StrLeTotal(a, b);
    }
    forall a, b, c | StrLe(a, b) && StrLe(b, c) ensures StrLe(a, c) {
      StrLeTrans(a, b, c);
    }
  }

  /** What `processSkillsFromDescriptions` resolves to: `None` stands for a
      known-skills file that could not be loaded, which yields []. */
  function ProcessedSkills(csv: Option<string>, descriptions: seq<string>): seq<string>
  {
    match csv
    case None => []
    case Some(text) => SortBy(Dedup(FoundSkills(FullText(descriptions), KnownSkills(text))), StrLe)
  }

  method ProcessSkillsFromDescriptions(csv: Option<string>, skillsDescriptions: seq<string>)
    returns (skills: seq<string>)
    ensures skills == ProcessedSkills(csv, skillsDescriptions)
  {
    if csv.None? {
      return [];
    }
    var knownSkills := KnownSkills(csv.value);
    var fullText := FullText(skillsDescriptions);
    var foundSkills := CollectFound(fullText, knownSkills);
    skills := SortBy(foundSkills, StrLe);
  }

  /** The `forEach` that adds each found known skill to the `Set`. */
  method CollectFound(fullText: string, knownSkills: seq<string>) returns (foundSkills: seq<string>)
    ensures foundSkills == Dedup(FoundSkills(fullText, knownSkills))
  {
    foundSkills := [];
    for i := 0 to |knownSkills|
      invariant foundSkills == Dedup(FoundSkills(fullText, knownSkills[..i]))
    {
      var skill := knownSkills[i];
      FoundSkillsSnoc(fullText, knownSkills, i);
      if Found(fullText, skill) {
        DedupAdd(FoundSkills(fullText, knownSkills[..i]), skill);
        if skill !in foundSkills {
          foundSkills := foundSkills + [skill];
        }
        assert foundSkills == Dedup(FoundSkills(fullText, knownSkills[..i]) + [skill]);
      } else {
        assert FoundSkills(fullText, knownSkills[..i + 1]) == FoundSkills(fullText, knownSkills[..i]);
      }
    }
    assert knownSkills[..|knownSkills|] == knownSkills;
  }

  /** A file that could not be loaded gives no skills. */
  lemma NoFileNoSkills(descriptions: seq<string>)
    ensures ProcessedSkills(None, descriptions) == []
  {
  }

  /** The result holds exactly the known skills longer than two characters
      whose lowercase form occurs in the lowercased descriptions, each with
      the file's casing. */
  lemma ProcessedSkillsMember(csv: string, descriptions: seq<string>, x: string)
    ensures x in ProcessedSkills(Some(csv), descriptions)
            <==> x in KnownSkills(csv) && Found(FullText(descriptions), x)
  {
    var ft := FullText(descriptions);
    var d := Dedup(FoundSkills(ft, KnownSkills(csv)));
    var r := SortBy(d, StrLe);
    SortByPermutation(d, StrLe);
    assert x in r <==> x in multiset(r);
    assert x in d <==> x in multiset(d);
    FoundSkillsMember(ft, KnownSkills(csv), x);
  }

  /** Every returned skill is longer than two characters. */
  lemma ProcessedSkillsLong(csv: string, descriptions: seq<string>)
    ensures forall i :: 0 <= i < |ProcessedSkills(Some(csv), descriptions)| ==>
      |ProcessedSkills(Some(csv), descriptions)[i]| >= MinSkillLength
  {
    var r := ProcessedSkills(Some(csv), descriptions);
    forall i | 0 <= i < |r|
      ensures |r[i]| >= MinSkillLength
    {
      ProcessedSkillsMember(csv, descriptions, r[i]);
    }
  }

  /** A sorted list whose multiset has no repeats is strictly ascending. */
  lemma StrictlyAscending(d: seq<string>, r: seq<string>)
    requires NoDups(d) && multiset(r) == multiset(d) && Sorted(r, StrLe)
    ensures forall i, j :: 0 <= i < j < |r| ==> StrLe(r[i], r[j]) && r[i] != r[j]
  {
    NoDupsPermutation(d, r);
  }

  /** A rearrangement of a list without repeats has none either. */
  lemma NoDupsPermutation<T>(d: seq<T>, r: seq<T>)
    requires NoDups(d) && multiset(r) == multiset(d)
    ensures NoDups(r)
  {
    forall i, j | 0 <= i < j < |r|
      ensures r[i] != r[j]
    {
      if r[i] == r[j] {
        var x := r[i];
        assert multiset(r)[x] >= 2 by {
          assert r == r[..i] + [x] + r[i + 1..j] + [x] + r[j + 1..];
        }
        DedupCountOne(d, x);
      }
    }
  }

  /** In a list with no repeats every element occurs once. */
  lemma {:induction false} DedupCountOne<T>(d: seq<T>, x: T)
    requires NoDups(d)
    ensures multiset(d)[x] <= 1
    decreases |d|
  {
    if d != [] {
      var p := d[..|d| - 1];
      assert d == p + [d[|d| - 1]];
      assert NoDups(p);
      DedupCountOne(p, x);
      if d[|d| - 1] == x {
        assert x !in p;
      }
    }
  }

  /** The result is in strictly ascending order, so it has no repeats. */
  lemma ProcessedSkillsAscending(csv: string, descriptions: seq<string>)
    ensures var r := ProcessedSkills(Some(csv), descriptions);
      forall i, j :: 0 <= i < j < |r| ==> StrLe(r[i], r[j]) && r[i] != r[j]
  {
    var d := Dedup(FoundSkills(FullText(descriptions), KnownSkills(csv)));
    SortByPermutation(d, StrLe);
    StrLeTotalPreorder();
    SortBySorted(d, StrLe);
    StrictlyAscending(d, SortBy(d, StrLe));
  }
}

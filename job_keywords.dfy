/** `extractKeywordsFromResume` of `src/app/components/JobListingsModal.tsx`:
    the search keywords drawn from a résumé before job listings are
    requested. Job titles, featured skills, the comma- or
    semicolon-separated words of the skill descriptions and degrees go,
    in that order, into an insertion-ordered `Set`; short words and a few
    stop words are then dropped. */
module JobKeywords {
  import opened Strings
  import ExtractSkills
  import ExtractEducation
  import ResumeEditing

  /** The non-empty texts, in order: `if (text) keywords.add(text)`. */
  function Present(texts: seq<string>): (r: seq<string>)
    ensures |r| <= |texts|
    ensures forall i :: 0 <= i < |r| ==> r[i] != []
    decreases |texts|
  {
    if texts == [] then []
    else
      var t := texts[|texts| - 1];
      Present(texts[..|texts| - 1]) + (if t != "" then [t] else [])
  }

  lemma {:induction false} PresentMember(texts: seq<string>, x: string)
    ensures x in Present(texts) <==> x in texts && x != ""
    decreases |texts|
  {
    if texts != [] {
      var texts' := texts[..|texts| - 1];
      assert texts == texts' + [texts[|texts| - 1]];
      PresentMember(texts', x);
    }
  }

  function JobTitles(exps: seq<ResumeEditing.ResumeWorkExperience>): seq<string>
  {
    seq(|exps|, i requires 0 <= i < |exps| => exps[i].jobTitle)
  }

  function SkillNames(featured: seq<ExtractSkills.FeaturedSkill>): seq<string>
  {
    seq(|featured|, i requires 0 <= i < |featured| => featured[i].skill)
  }

  function Degrees(educations: seq<ExtractEducation.ResumeEducation>): seq<string>
  {
    seq(|educations|, i requires 0 <= i < |educations| => educations[i].degree)
  }

  /** `desc.split(/[,;]/)`, each piece trimmed, blank pieces skipped. */
  function Words(description: string): seq<string>
  {
    TrimmedItems(Split(description, {',', ';'}))
  }

  /** The pieces of all lists, list by list. */
  function Flatten<T>(xss: seq<seq<T>>): seq<T>
    decreases |xss|
  {
    if xss == [] then [] else Flatten(xss[..|xss| - 1]) + xss[|xss| - 1]
  }

  lemma {:induction false} FlattenMember<T>(xss: seq<seq<T>>, x: T)
    ensures x in Flatten(xss) <==> exists i :: 0 <= i < |xss| && x in xss[i]
    decreases |xss|
  {
    if xss != [] {
      var init, n := xss[..|xss| - 1], |xss| - 1;
      FlattenMember(init, x);
      assert Flatten(xss) == Flatten(init) + xss[n];
      if x in Flatten(xss) {
        if x in Flatten(init) {
          var i :| 0 <= i < |init| && x in init[i];
          assert init[i] == xss[i];
        } else {
          assert x in xss[n];
        }
      } else {
        forall i | 0 <= i < |xss|
          ensures x !in xss[i]
        {
          if i < n {
            assert init[i] == xss[i];
          }
        }
      }
    }
  }

  /** The words of each skill description. */
  function WordLists(descriptions: seq<string>): (r: seq<seq<string>>)
    ensures |r| == |descriptions|
    ensures forall i :: 0 <= i < |r| ==> r[i] == Words(descriptions[i])
  {
    MapSeq(descriptions, Words)
  }

  /** `xs.map(f)`. */
  function MapSeq<A, B>(xs: seq<A>, f: A -> B): (r: seq<B>)
    ensures |r| == |xs| && forall i :: 0 <= i < |xs| ==> r[i] == f(xs[i])
  {
    seq(|xs|, i requires 0 <= i < |xs| => f(xs[i]))
  }

  lemma MapSnoc<A, B>(xs: seq<A>, f: A -> B, i: nat)
    requires i < |xs|
    ensures MapSeq(xs[..i + 1], f) == MapSeq(xs[..i], f) + [f(xs[i])]
  {
  }

  lemma FlattenSnoc<T>(seen: seq<T>, xss: seq<seq<T>>, ys: seq<T>)
    ensures seen + Flatten(xss + [ys]) == (seen + Flatten(xss)) + ys
  {
    assert (xss + [ys])[..|xss + [ys]| - 1] == xss;
    assert (xss + [ys])[|xss + [ys]| - 1] == ys;
  }

  /** The words of every skill description, description by description. */
  function DescriptionWords(descriptions: seq<string>): seq<string>
  {
    Flatten(WordLists(descriptions))
  }

  /** A description word is a word of one of the descriptions. */
  lemma DescriptionWordsMember(descriptions: seq<string>, x: string)
    ensures x in DescriptionWords(descriptions) <==> exists i :: 0 <= i < |descriptions| && x in Words(descriptions[i])
  {
    var lists := WordLists(descriptions);
    FlattenMember(lists, x);
    if exists i :: 0 <= i < |descriptions| && x in Words(descriptions[i]) {
      var i :| 0 <= i < |descriptions| && x in Words(descriptions[i]);
      assert x in lists[i];
    }
  }

  /** Every description word is trimmed and not empty. */
  lemma DescriptionWordsClean(descriptions: seq<string>, x: string)
    requires x in DescriptionWords(descriptions)
    ensures x != [] && IsTrimmed(x)
  {
    DescriptionWordsMember(descriptions, x);
    var i :| 0 <= i < |descriptions| && x in Words(descriptions[i]);
    var w := Words(descriptions[i]);
    var k :| 0 <= k < |w| && w[k] == x;
  }

  /** Every keyword candidate, in the order the `Set` receives them. */
  function RawKeywords(resume: ResumeEditing.Resume): seq<string>
  {
    Present(JobTitles(resume.workExperiences))
    + Present(SkillNames(resume.skills.featuredSkills))
    + DescriptionWords(resume.skills.descriptions)
    + Present(Degrees(resume.educations))
  }

  const StopWords: seq<string> := ["and", "the", "for", "with"]

  /** `keyword.length > 2 && !stopWords.includes(keyword.toLowerCase())`. */
  predicate Kept(keyword: string)
  {
    |keyword| > 2 && ToLower(keyword) !in StopWords
  }

  function KeptKeywords(keywords: seq<string>): (r: seq<string>)
    ensures |r| <= |keywords|
    ensures forall i :: 0 <= i < |r| ==> Kept(r[i])
    decreases |keywords|
  {
    if keywords == [] then []
    else
      var k := keywords[|keywords| - 1];
      KeptKeywords(keywords[..|keywords| - 1]) + (if Kept(k) then [k] else [])
  }

  lemma {:induction false} KeptKeywordsMember(keywords: seq<string>, x: string)
    ensures x in KeptKeywords(keywords) <==> x in keywords && Kept(x)
    decreases |keywords|
  {
    if keywords != [] {
      var keywords' := keywords[..|keywords| - 1];
      assert keywords == keywords' + [keywords[|keywords| - 1]];
      KeptKeywordsMember(keywords', x);
    }
  }

  lemma {:induction false} KeptKeywordsAppend(a: seq<string>, b: seq<string>)
    ensures KeptKeywords(a + b) == KeptKeywords(a) + KeptKeywords(b)
    decreases |b|
  {
    if b == [] {
      assert a + b == a;
    } else {
      var last := if Kept(b[|b| - 1]) then [b[|b| - 1]] else [];
      LastOfAppend(a, b);
      KeptKeywordsAppend(a, b[..|b| - 1]);
      calc {
        KeptKeywords(a + b);
        KeptKeywords(a + b[..|b| - 1]) + last;
        (KeptKeywords(a) + KeptKeywords(b[..|b| - 1])) + last;
        { ConcatAssoc(KeptKeywords(a), KeptKeywords(b[..|b| - 1]), last); }
        KeptKeywords(a) + (KeptKeywords(b[..|b| - 1]) + last);
        KeptKeywords(a) + KeptKeywords(b);
      }
    }
  }

  /** Filtering keeps a list free of repeats. */
  lemma {:induction false} KeptKeywordsNoDups(keywords: seq<string>)
    requires NoDups(keywords)
    ensures NoDups(KeptKeywords(keywords))
    decreases |keywords|
  {
    if keywords != [] {
      var keywords' := keywords[..|keywords| - 1];
      var k := keywords[|keywords| - 1];
      assert NoDups(keywords');
      KeptKeywordsNoDups(keywords');
      KeptKeywordsMember(keywords', k);
      assert k !in keywords';
    }
  }

  /** What `extractKeywordsFromResume` returns. */
  function Keywords(resume: ResumeEditing.Resume): seq<string>
  {
    KeptKeywords(Dedup(RawKeywords(resume)))
  }

  // ---------------------------------------------------------------------
  // The loops

  /** `keywords.add(k)` on the insertion-ordered `Set`, held as the list of
      its elements: the list is always the first occurrences of what was
      added so far. */
  method SetAdd<T(==)>(keywords: seq<T>, ghost seen: seq<T>, k: T) returns (r: seq<T>)
    requires keywords == Dedup(seen)
    ensures r == Dedup(seen + [k])
  {
    DedupAdd(seen, k);
    r := keywords;
    if k !in r {
      r := r + [k];
    }
  }

  /** One `forEach` over texts that adds each non-empty one to the `Set`. */
  method AddPresent(keywords: seq<string>, ghost seen: seq<string>, texts: seq<string>) returns (r: seq<string>)
    requires keywords == Dedup(seen)
    ensures r == Dedup(seen + Present(texts))
  {
    r := keywords;
    assert seen + Present(texts[..0]) == seen;
    for i := 0 to |texts|
      invariant r == Dedup(seen + Present(texts[..i]))
    {
      PresentStep(seen, texts, i);
      if texts[i] != "" {
        r := SetAdd(r, seen + Present(texts[..i]), texts[i]);
      }
    }
    assert texts[..|texts|] == texts;
  }

  lemma PresentStep(seen: seq<string>, texts: seq<string>, i: nat)
    requires i < |texts|
    ensures if texts[i] != "" then seen + Present(texts[..i + 1]) == (seen + Present(texts[..i])) + [texts[i]]
            else seen + Present(texts[..i + 1]) == seen + Present(texts[..i])
  {
    assert texts[..i + 1][..i] == texts[..i];
  }

  /** The nested `forEach` over the descriptions and their words. */
  method AddDescriptionWords(keywords: seq<string>, ghost seen: seq<string>, descriptions: seq<string>)
    returns (r: seq<string>)
    requires keywords == Dedup(seen)
    ensures r == Dedup(seen + DescriptionWords(descriptions))
  {
    r := keywords;
    assert WordLists(descriptions[..0]) == [];
    assert seen + Flatten(WordLists(descriptions[..0])) == seen;
    for i := 0 to |descriptions|
      invariant r == Dedup(seen + Flatten(WordLists(descriptions[..i])))
    {
      DescriptionStep(seen, descriptions, i);
      r := AddWords(r, seen + Flatten(WordLists(descriptions[..i])), descriptions[i]);
    }
    assert descriptions[..|descriptions|] == descriptions;
  }

  lemma DescriptionStep(seen: seq<string>, descriptions: seq<string>, i: nat)
    requires i < |descriptions|
    ensures seen + Flatten(WordLists(descriptions[..i + 1]))
         == (seen + Flatten(WordLists(descriptions[..i]))) + Words(descriptions[i])
  {
    MapSnoc(descriptions, Words, i);
    FlattenSnoc(seen, WordLists(descriptions[..i]), Words(descriptions[i]));
  }

  /** The inner `forEach` over one description's pieces. */
  method AddWords(keywords: seq<string>, ghost seen: seq<string>, description: string) returns (r: seq<string>)
    requires keywords == Dedup(seen)
    ensures r == Dedup(seen + Words(description))
  {
    var words := Split(description, {',', ';'});
    r := AddPieces(keywords, seen, words);
  }

  /** The loop of the inner `forEach`, over the split pieces. */
  method AddPieces(keywords: seq<string>, ghost seen: seq<string>, words: seq<string>) returns (r: seq<string>)
    requires keywords == Dedup(seen)
    ensures r == Dedup(seen + TrimmedItems(words))
  {
    r := keywords;
    assert seen + TrimmedItems(words[..0]) == seen;
    for j := 0 to |words|
      invariant r == Dedup(seen + TrimmedItems(words[..j]))
    {
      WordStep(seen, words, j);
      r := AddWord(r, seen + TrimmedItems(words[..j]), words[j]);
    }
    assert words[..|words|] == words;
  }

  /** The body of the inner `forEach`: a piece, trimmed, is added unless
      it is empty. */
  method AddWord(keywords: seq<string>, ghost seen: seq<string>, piece: string) returns (r: seq<string>)
    requires keywords == Dedup(seen)
    ensures r == Dedup(if Trim(piece) != "" then seen + [Trim(piece)] else seen)
  {
    var trimmed := Trim(piece);
    r := keywords;
    if trimmed != "" {
      r := SetAdd(r, seen, trimmed);
    }
  }

  lemma WordStep(seen: seq<string>, words: seq<string>, j: nat)
    requires j < |words|
    ensures if Trim(words[j]) != "" then seen + TrimmedItems(words[..j + 1]) == (seen + TrimmedItems(words[..j])) + [Trim(words[j])]
            else seen + TrimmedItems(words[..j + 1]) == seen + TrimmedItems(words[..j])
  {
    assert words[..j + 1][..j] == words[..j];
  }

  /** The final `filter`. */
  method KeepKeywords(keywords: seq<string>) returns (r: seq<string>)
    ensures r == KeptKeywords(keywords)
  {
    r := [];
    for i := 0 to |keywords|
      invariant r == KeptKeywords(keywords[..i])
    {
      assert keywords[..i + 1][..i] == keywords[..i];
      if |keywords[i]| > 2 && ToLower(keywords[i]) !in StopWords {
        r := r + [keywords[i]];
      }
    }
    assert keywords[..|keywords|] == keywords;
  }

  /** `extractKeywordsFromResume`. */
  method ExtractKeywordsFromResume(resume: ResumeEditing.Resume) returns (keywords: seq<string>)
    ensures keywords == Keywords(resume)
  {
    var titles := Present(JobTitles(resume.workExperiences));
    var skills := Present(SkillNames(resume.skills.featuredSkills));
    var words := DescriptionWords(resume.skills.descriptions);
    var degrees := Present(Degrees(resume.educations));
    var added := AddPresent([], [], JobTitles(resume.workExperiences));
    assert [] + titles == titles;
    added := AddPresent(added, titles, SkillNames(resume.skills.featuredSkills));
    added := AddDescriptionWords(added, titles + skills, resume.skills.descriptions);
    added := AddPresent(added, titles + skills + words, Degrees(resume.educations));
    keywords := KeepKeywords(added);
  }

  // ---------------------------------------------------------------------
  // Properties

  /** A keyword is exactly a candidate that passes the filter; none
      repeats. */
  lemma KeywordsSpec(resume: ResumeEditing.Resume, x: string)
    ensures x in Keywords(resume) <==> x in RawKeywords(resume) && Kept(x)
    ensures NoDups(Keywords(resume))
  {
    KeptKeywordsMember(Dedup(RawKeywords(resume)), x);
    DedupMember(RawKeywords(resume), x);
    KeptKeywordsNoDups(Dedup(RawKeywords(resume)));
  }

  /** A candidate is a non-empty job title, a non-empty featured skill, a
      trimmed non-empty description word or a non-empty degree. */
  lemma RawKeywordsMember(resume: ResumeEditing.Resume, x: string)
    ensures x in RawKeywords(resume) <==>
      || (x != "" && x in JobTitles(resume.workExperiences))
      || (x != "" && x in SkillNames(resume.skills.featuredSkills))
      || (exists i :: 0 <= i < |resume.skills.descriptions| && x in Words(resume.skills.descriptions[i]))
      || (x != "" && x in Degrees(resume.educations))
  {
    PresentMember(JobTitles(resume.workExperiences), x);
    PresentMember(SkillNames(resume.skills.featuredSkills), x);
    DescriptionWordsMember(resume.skills.descriptions, x);
    PresentMember(Degrees(resume.educations), x);
  }

  /** The kept job titles come first, in résumé order. */
  lemma TitlesFirst(resume: ResumeEditing.Resume)
    ensures var titles := KeptKeywords(Dedup(Present(JobTitles(resume.workExperiences))));
      |titles| <= |Keywords(resume)| && Keywords(resume)[..|titles|] == titles
  {
    var t := Present(JobTitles(resume.workExperiences));
    var s := Present(SkillNames(resume.skills.featuredSkills));
    var d := DescriptionWords(resume.skills.descriptions);
    var g := Present(Degrees(resume.educations));
    Regroup(t, s, d, g);
    var rest := Without(s + d + g, ToSet(t));
    DedupAppend(t, s + d + g);
    KeptKeywordsAppend(Dedup(t), Dedup(rest));
    PrefixOfAppend(KeptKeywords(Dedup(t)), KeptKeywords(Dedup(rest)));
  }

  lemma Regroup<T>(a: seq<T>, b: seq<T>, c: seq<T>, d: seq<T>)
    ensures a + b + c + d == a + (b + c + d)
  {
  }

  lemma PrefixOfAppend<T>(a: seq<T>, b: seq<T>)
    ensures (a + b)[..|a|] == a
  {
  }

  /** Stop words are dropped whatever their case, and so is every word of
      two characters or fewer. */
  lemma StopWordsDropped(resume: ResumeEditing.Resume, x: string)
    requires ToLower(x) in StopWords || |x| <= 2
    ensures x !in Keywords(resume)
  {
    KeywordsSpec(resume, x);
  }
}

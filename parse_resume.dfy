/** `extractSkills` of `src/utils/parseResume.ts`: the skills of a given
    list that occur in the résumé text, ignoring case. */
module ParseResume {
  import opened Strings

  predicate Mentions(text: string, skill: string)
  {
    ContainsIgnoreCase(text, skill)
  }

  /** The entries of `skillsList` mentioned in `text`, in list order, with
      their own casing and with repeats kept. */
  function MatchedSkills(text: string, skillsList: seq<string>): seq<string>
    decreases |skillsList|
  {
    if skillsList == [] then []
    else
      var skill := skillsList[|skillsList| - 1];
      MatchedSkills(text, skillsList[..|skillsList| - 1]) + (if Mentions(text, skill) then [skill] else [])
  }

  /** `extractSkills`: one pass over the list, pushing every entry whose
      lower-case form occurs in the lower-cased text. The `catch` branch,
      which would return [], cannot be reached: nothing in the loop throws. */
  method ExtractSkills(resumeText: string, skillsList: seq<string>) returns (foundSkills: seq<string>)
    ensures foundSkills == MatchedSkills(resumeText, skillsList)
  {
    foundSkills := [];
    var lowerText := ToLower(resumeText);
    for i := 0 to |skillsList|
      invariant foundSkills == MatchedSkills(resumeText, skillsList[..i])
    {
      var skill := skillsList[i];
      var lowerSkill := ToLower(skill);
      assert skillsList[..i + 1][..i] == skillsList[..i];
      if Contains(lowerText, lowerSkill) {
        foundSkills := foundSkills + [skill];
      }
    }
    assert skillsList[..|skillsList|] == skillsList;
  }

  /** Matching distributes over concatenation of the list: the result is
      the list's own order, filtered. */
  lemma {:induction false} MatchedSkillsAppend(text: string, xs: seq<string>, ys: seq<string>)
    ensures MatchedSkills(text, xs + ys) == MatchedSkills(text, xs) + MatchedSkills(text, ys)
    decreases |ys|
  {
    if ys == [] {
      assert xs + ys == xs;
    } else {
      var ys' := ys[..|ys| - 1];
      assert (xs + ys)[..|xs + ys| - 1] == xs + ys';
      assert (xs + ys)[|xs + ys| - 1] == ys[|ys| - 1];
      MatchedSkillsAppend(text, xs, ys');
    }
  }

  /** Each entry appears in the result as often as in the list when the
      text mentions it, and not at all otherwise; so the result keeps the
      list's casing, repeats duplicates and is never longer than the list. */
  lemma {:induction false} MatchedSkillsCount(text: string, skillsList: seq<string>, s: string)
    ensures multiset(MatchedSkills(text, skillsList))[s]
            == if Mentions(text, s) then multiset(skillsList)[s] else 0
    decreases |skillsList|
  {
    if skillsList != [] {
      var init := skillsList[..|skillsList| - 1];
      MatchedSkillsCount(text, init, s);
      assert skillsList == init + [skillsList[|skillsList| - 1]];
    }
  }

  lemma {:induction false} MatchedSkillsShorter(text: string, skillsList: seq<string>)
    ensures |MatchedSkills(text, skillsList)| <= |skillsList|
    decreases |skillsList|
  {
    if skillsList != [] {
      MatchedSkillsShorter(text, skillsList[..|skillsList| - 1]);
    }
  }

  /** A skill is returned exactly when it is in the list and mentioned. */
  lemma MatchedSkillsMember(text: string, skillsList: seq<string>, s: string)
    ensures s in MatchedSkills(text, skillsList) <==> s in skillsList && Mentions(text, s)
  {
    MatchedSkillsCount(text, skillsList, s);
    assert s in MatchedSkills(text, skillsList) <==> multiset(MatchedSkills(text, skillsList))[s] > 0;
    assert s in skillsList <==> multiset(skillsList)[s] > 0;
  }

  /** The empty skill is in every text, so an empty entry is always kept. */
  lemma EmptySkillAlwaysMatched(text: string, skillsList: seq<string>)
    requires "" in skillsList
    ensures "" in MatchedSkills(text, skillsList)
  {
    ContainsEmpty(ToLower(text));
    assert ToLower("") == "";
    MatchedSkillsMember(text, skillsList, "");
  }
}

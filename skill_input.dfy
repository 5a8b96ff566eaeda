/** The two skill editors, `src/app/resume-parser/SkillsForm.tsx` and
    `src/app/resume-parser/SkillsTableRow.tsx`: reading what the user
    types into skills, adding them to the selected list, suggesting known
    skills while the user types, and removing a skill. */
module SkillInput {
  import opened Wrappers
  import opened Strings
  import ResumeEditing

  // ---------------------------------------------------------------------
  // Reading typed text

  /** A string holding a colon does not trim to "". */
  lemma ColonNotBlank(s: string)
    requires Count(s, {':'}) > 0
    ensures Trim(s) != [] && IsTrimmed(Trim(s))
  {
    CountZero(s, {':'});
    var i :| 0 <= i < |s| && s[i] in {':'};
    assert !AllWhite(s) by {
      assert !IsWhite(s[i]);
    }
    TrimEmptyIff(s);
    TrimShape(s);
  }

  /** The skills one entry names: "cat: a, b" (a single colon) gives the
      comma pieces after the colon; text with two or more colons is a
      single skill, trimmed; text without a colon gives its comma pieces.
      Comma pieces are trimmed and blank ones dropped. */
  function InputSkills(input: string): (r: seq<string>)
    ensures forall i :: 0 <= i < |r| ==> r[i] != [] && IsTrimmed(r[i])
  {
    if Count(input, {':'}) == 0 then ResumeEditing.CommaItems(input)
    else if ResumeEditing.OneColon(input) then ResumeEditing.CommaItems(ResumeEditing.AfterColon(input))
    else WholeSkill(input)
  }

  /** Text with two or more colons: the single trimmed skill. */
  function WholeSkill(input: string): (r: seq<string>)
    requires Count(input, {':'}) > 0
    ensures |r| == 1 && r[0] != [] && IsTrimmed(r[0])
  {
    ColonNotBlank(input);
    [Trim(input)]
  }

  /** Typing back a category line reads back its items. */
  lemma CategoryInput(category: string, items: seq<string>)
    requires NoneIn(category, {':'})
    requires |items| > 0
    requires forall i :: 0 <= i < |items| ==> items[i] != [] && IsTrimmed(items[i]) && NoneIn(items[i], {',', ':'})
    ensures InputSkills(ResumeEditing.CategoryLine(category, items)) == items
  {
    ResumeEditing.CategoryLineSkills(category, items);
  }

  /** Typing a comma-separated list of clean skills reads back the list. */
  lemma ListInput(items: seq<string>)
    requires |items| > 0
    requires forall i :: 0 <= i < |items| ==> items[i] != [] && IsTrimmed(items[i]) && NoneIn(items[i], {',', ':'})
    ensures InputSkills(Join(items, ",")) == items
  {
    forall i | 0 <= i < |items|
      ensures NoneIn(items[i], {','}) && NoneIn(items[i], {':'})
    {
    }
    ResumeEditing.JoinNoneIn(items, ',', ':');
    CountZero(Join(items, ","), {':'});
    SplitJoin(items, ',');
    TrimmedItemsOfClean(items);
  }

  // ---------------------------------------------------------------------
  // SkillsForm: adding typed skills

  /** `s.toLowerCase().trim()`, what an existing skill is compared by. */
  function Key(s: string): string
  {
    Trim(ToLower(s))
  }

  /** Lowering letters leaves white space where it was. */
  lemma LowerKeepsTrimmed(s: string)
    requires IsTrimmed(s)
    ensures Key(s) == ToLower(s)
  {
    TrimOfTrimmed(ToLower(s));
  }

  /** The comparison keys of a list of skills. */
  function Keys(xs: seq<string>): (r: seq<string>)
    ensures |r| == |xs| && forall i :: 0 <= i < |xs| ==> r[i] == Key(xs[i])
  {
    seq(|xs|, i requires 0 <= i < |xs| => Key(xs[i]))
  }

  lemma KeysAppend(a: seq<string>, b: seq<string>)
    ensures Keys(a + b) == Keys(a) + Keys(b)
  {
  }

  /** `existing.some(e => e.toLowerCase().trim() === item.toLowerCase())`. */
  predicate IsDuplicate(existing: seq<string>, item: string)
  {
    ToLower(item) in Keys(existing)
  }

  /** `available.find(a => a.toLowerCase() === item.toLowerCase())`: the
      first known skill equal to the item up to case. */
  function MatchedSkill(available: seq<string>, item: string): (r: Option<string>)
    ensures r.Some? ==> r.value in available && ToLower(r.value) == ToLower(item)
    ensures r.None? ==> forall i :: 0 <= i < |available| ==> ToLower(available[i]) != ToLower(item)
    decreases |available|
  {
    if available == [] then None
    else if ToLower(available[0]) == ToLower(item) then Some(available[0])
    else MatchedSkill(available[1..], item)
  }

  /** `matchedSkill || skillItem`: the known skill's spelling when there is
      a non-empty one, or else the item as typed. */
  function FinalSkill(available: seq<string>, item: string): (r: string)
    ensures ToLower(r) == ToLower(item)
    ensures r == item || r in available
  {
    match MatchedSkill(available, item)
    case Some(m) => if m != "" then m else item
    case None => item
  }

  /** The skills `addSkill` appends, AS WRITTEN: each item is checked
      against the skills selected before the call only, so an item typed
      twice in one entry is appended twice. */
  function AddedSkills(skills: seq<string>, available: seq<string>, items: seq<string>): (r: seq<string>)
    ensures |r| <= |items|
    decreases |items|
  {
    if items == [] then []
    else
      var added := AddedSkills(skills, available, items[..|items| - 1]);
      var item := items[|items| - 1];
      if IsDuplicate(skills, item) then added else added + [FinalSkill(available, item)]
  }

  /** "Go, go" typed into an empty list with no known skills adds two
      skills that differ only in case. */
  lemma RepeatedItemAddedTwice()
    ensures AddedSkills([], [], ["Go", "go"]) == ["Go", "go"]
    ensures Key("Go") == Key("go")
  {
    assert ["Go", "go"][..1] == ["Go"];
    assert ["Go"][..0] == [];
    assert ToLower("Go") == "go";
    assert ToLower("go") == "go";
  }

  /** As written, an item's skill is appended exactly when the item is
      not among the skills selected before the call, ignoring case; the
      skill is spelled as the known skill when there is one. */
  lemma {:induction false} AddedSkillsMember(skills: seq<string>, available: seq<string>, items: seq<string>, x: string)
    ensures x in AddedSkills(skills, available, items)
            <==> exists i :: 0 <= i < |items| && !IsDuplicate(skills, items[i]) && x == FinalSkill(available, items[i])
    decreases |items|
  {
    if items != [] {
      var items' := items[..|items| - 1];
      var item := items[|items| - 1];
      AddedSkillsMember(skills, available, items', x);
      if i :| 0 <= i < |items| && !IsDuplicate(skills, items[i]) && x == FinalSkill(available, items[i]) {
        if i < |items'| {
          assert items'[i] == items[i];
        }
      }
      if i :| 0 <= i < |items'| && !IsDuplicate(skills, items'[i]) && x == FinalSkill(available, items'[i]) {
        assert items[i] == items'[i];
      }
    }
  }

  /** As written, nothing is appended exactly when every item is among
      the skills selected before the call, ignoring case. */
  lemma AddedSkillsNone(skills: seq<string>, available: seq<string>, items: seq<string>)
    ensures AddedSkills(skills, available, items) == [] <==> Covered(skills, items)
  {
    var added := AddedSkills(skills, available, items);
    if added != [] {
      AddedSkillsMember(skills, available, items, added[0]);
    }
    if j :| 0 <= j < |items| && !IsDuplicate(skills, items[j]) {
      AddedSkillsMember(skills, available, items, FinalSkill(available, items[j]));
    }
  }

  /** The skills `addSkill` appends as evidently intended: each item is
      checked against the list being built, so every skill is added once. */
  function AddedSkillsOnce(skills: seq<string>, available: seq<string>, items: seq<string>): (r: seq<string>)
    ensures |r| <= |items|
    decreases |items|
  {
    if items == [] then []
    else
      var added := AddedSkillsOnce(skills, available, items[..|items| - 1]);
      var item := items[|items| - 1];
      if IsDuplicate(skills + added, item) then added else added + [FinalSkill(available, item)]
  }

  predicate AllTrimmed(xs: seq<string>)
  {
    forall i :: 0 <= i < |xs| ==> IsTrimmed(xs[i])
  }

  /** With trimmed input, the skill added for an item has the item's key. */
  lemma FinalKey(available: seq<string>, item: string)
    requires IsTrimmed(item) && AllTrimmed(available)
    ensures IsTrimmed(FinalSkill(available, item))
    ensures Key(FinalSkill(available, item)) == ToLower(item)
  {
    LowerKeepsTrimmed(FinalSkill(available, item));
  }

  /** The definition of `AddedSkillsOnce` for a non-empty item list. */
  lemma AddedSkillsOnceStep(skills: seq<string>, available: seq<string>, items: seq<string>)
    requires items != []
    ensures var prev := AddedSkillsOnce(skills, available, items[..|items| - 1]);
      var item := items[|items| - 1];
      AddedSkillsOnce(skills, available, items)
        == if IsDuplicate(skills + prev, item) then prev else prev + [FinalSkill(available, item)]
  {
  }

  /** `AddedSkillsOnceStep` on the prefixes of one item list. */
  lemma AddedSkillsOncePrefix(skills: seq<string>, available: seq<string>, items: seq<string>, i: nat)
    requires i < |items|
    ensures var prev := AddedSkillsOnce(skills, available, items[..i]);
      AddedSkillsOnce(skills, available, items[..i + 1])
        == if IsDuplicate(skills + prev, items[i]) then prev else prev + [FinalSkill(available, items[i])]
  {
    assert items[..i + 1][..i] == items[..i];
    AddedSkillsOnceStep(skills, available, items[..i + 1]);
  }

  /** With trimmed input, every added skill is trimmed. */
  lemma {:induction false} AddedSkillsOnceTrimmed(skills: seq<string>, available: seq<string>, items: seq<string>)
    requires AllTrimmed(items) && AllTrimmed(available)
    ensures AllTrimmed(AddedSkillsOnce(skills, available, items))
    decreases |items|
  {
    if items != [] {
      var items' := items[..|items| - 1];
      var item := items[|items| - 1];
      var prev := AddedSkillsOnce(skills, available, items');
      AddedSkillsOnceTrimmed(skills, available, items');
      AddedSkillsOnceStep(skills, available, items);
      if !IsDuplicate(skills + prev, item) {
        var f := FinalSkill(available, item);
        assert IsTrimmed(f);
        var r := prev + [f];
        forall i | 0 <= i < |r|
          ensures IsTrimmed(r[i])
        {
          if i < |prev| {
            assert r[i] == prev[i];
          }
        }
      }
    }
  }

  /** Skills whose keys are keys of `items`. */
  predicate FromItems(added: seq<string>, items: seq<string>)
  {
    forall i :: 0 <= i < |added| ==> Key(added[i]) in Keys(items)
  }

  lemma FromItemsSnoc(added: seq<string>, items: seq<string>, item: string, f: string, grow: bool)
    requires FromItems(added, items)
    requires Key(f) == Key(item)
    ensures FromItems(if grow then added + [f] else added, items + [item])
  {
    KeysAppend(items, [item]);
    assert Keys(items + [item])[|items|] == Key(f);
    var r := if grow then added + [f] else added;
    forall i | 0 <= i < |r|
      ensures Key(r[i]) in Keys(items + [item])
    {
      if i < |added| {
        assert r[i] == added[i];
      } else {
        assert r[i] == f;
      }
    }
  }

  /** Every added skill is one of the items up to case. */
  lemma {:induction false} AddedSkillsOnceOrigin(skills: seq<string>, available: seq<string>, items: seq<string>)
    requires AllTrimmed(items) && AllTrimmed(available)
    ensures FromItems(AddedSkillsOnce(skills, available, items), items)
    decreases |items|
  {
    if items != [] {
      var items' := items[..|items| - 1];
      var item := items[|items| - 1];
      assert items == items' + [item];
      var prev := AddedSkillsOnce(skills, available, items');
      AddedSkillsOnceOrigin(skills, available, items');
      AddedSkillsOnceStep(skills, available, items);
      FinalKey(available, item);
      LowerKeepsTrimmed(item);
      FromItemsSnoc(prev, items', item, FinalSkill(available, item), !IsDuplicate(skills + prev, item));
    }
  }

  /** No added skill equals, up to case, a selected one or another added one. */
  predicate Fresh(skills: seq<string>, added: seq<string>)
  {
    NoDups(Keys(added)) && forall i :: 0 <= i < |added| ==> Key(added[i]) !in Keys(skills)
  }

  lemma FreshSnoc(skills: seq<string>, prev: seq<string>, f: string)
    requires Fresh(skills, prev)
    requires Key(f) !in Keys(skills + prev)
    ensures Fresh(skills, prev + [f])
  {
    KeysAppend(skills, prev);
    KeysAppend(prev, [f]);
    var r := prev + [f];
    var ks := Keys(r);
    assert ks == Keys(prev) + [Key(f)];
    forall i, j | 0 <= i < j < |ks|
      ensures ks[i] != ks[j]
    {
      assert ks[i] == Keys(prev)[i];
      if j < |prev| {
        assert ks[j] == Keys(prev)[j];
      } else {
        assert ks[j] == Key(f);
        assert Keys(prev)[i] in Keys(skills + prev);
      }
    }
    forall i | 0 <= i < |r|
      ensures Key(r[i]) !in Keys(skills)
    {
      if i < |prev| {
        assert r[i] == prev[i];
      } else {
        assert r[i] == f;
      }
    }
  }

  /** With trimmed known skills, no two added skills, and no added and
      selected skill, are equal up to case. */
  lemma {:induction false} AddedSkillsOnceFresh(skills: seq<string>, available: seq<string>, items: seq<string>)
    requires AllTrimmed(items) && AllTrimmed(available)
    ensures Fresh(skills, AddedSkillsOnce(skills, available, items))
    decreases |items|
  {
    if items != [] {
      var items' := items[..|items| - 1];
      var item := items[|items| - 1];
      var prev := AddedSkillsOnce(skills, available, items');
      AddedSkillsOnceFresh(skills, available, items');
      AddedSkillsOnceStep(skills, available, items);
      if !IsDuplicate(skills + prev, item) {
        FinalKey(available, item);
        FreshSnoc(skills, prev, FinalSkill(available, item));
      }
    }
  }

  /** Every item of `items` is selected up to case in `existing`. */
  predicate Covered(existing: seq<string>, items: seq<string>)
  {
    forall j :: 0 <= j < |items| ==> IsDuplicate(existing, items[j])
  }

  lemma CoveredSnoc(existing: seq<string>, next: seq<string>, items: seq<string>, item: string)
    requires Covered(existing, items)
    requires forall k :: k in Keys(existing) ==> k in Keys(next)
    requires IsDuplicate(next, item)
    ensures Covered(next, items + [item])
  {
    forall j | 0 <= j < |items + [item]|
      ensures IsDuplicate(next, (items + [item])[j])
    {
      if j < |items| {
        assert (items + [item])[j] == items[j];
        assert IsDuplicate(existing, items[j]);
      } else {
        assert (items + [item])[j] == item;
      }
    }
  }

  /** Afterwards every item is selected up to case. */
  lemma {:induction false} AddedSkillsOnceCovers(skills: seq<string>, available: seq<string>, items: seq<string>)
    requires AllTrimmed(items) && AllTrimmed(available)
    ensures Covered(skills + AddedSkillsOnce(skills, available, items), items)
    decreases |items|
  {
    if items != [] {
      var items' := items[..|items| - 1];
      var item := items[|items| - 1];
      assert items == items' + [item];
      var prev := AddedSkillsOnce(skills, available, items');
      AddedSkillsOnceCovers(skills, available, items');
      AddedSkillsOnceStep(skills, available, items);
      if IsDuplicate(skills + prev, item) {
        CoveredSnoc(skills + prev, skills + prev, items', item);
      } else {
        CoveredGrow(skills, prev, available, items', item);
      }
    }
  }

  /** Appending the skill for a new item covers that item too. */
  lemma CoveredGrow(skills: seq<string>, prev: seq<string>, available: seq<string>, items: seq<string>, item: string)
    requires Covered(skills + prev, items)
    requires IsTrimmed(item) && AllTrimmed(available)
    ensures Covered(skills + (prev + [FinalSkill(available, item)]), items + [item])
  {
    var f := FinalSkill(available, item);
    var e := skills + prev;
    var next := e + [f];
    ConcatAssoc(skills, prev, [f]);
    KeysAppend(e, [f]);
    assert Keys([f]) == [Key(f)];
    FinalKey(available, item);
    CoveredSnoc(e, next, items, item);
  }

  /** What `addSkill` hands to `onSkillsChange`: nothing for blank input or
      when nothing new was typed, or else the selected skills followed by
      the new ones. */
  function SkillAddition(skills: seq<string>, available: seq<string>, skill: string): Option<seq<string>>
  {
    if Trim(skill) == [] then None
    else
      var added := AddedSkillsOnce(skills, available, InputSkills(Trim(skill)));
      if |added| > 0 then Some(skills + added) else None
  }

  /** What `addSkill` hands to `onSkillsChange` AS WRITTEN, with the
      duplicate check against the skills selected before the call. */
  function SkillAdditionAsWritten(skills: seq<string>, available: seq<string>, skill: string): Option<seq<string>>
  {
    if Trim(skill) == [] then None
    else
      var added := AddedSkills(skills, available, InputSkills(Trim(skill)));
      if |added| > 0 then Some(skills + added) else None
  }

  /** As written: blank input changes nothing; a change keeps the selected
      skills in front and appends the skills of the items not selected
      before, ignoring case; no change happens exactly when every typed
      skill is already selected up to case. */
  lemma SkillAdditionAsWrittenSpec(skills: seq<string>, available: seq<string>, skill: string)
    ensures Trim(skill) == [] ==> SkillAdditionAsWritten(skills, available, skill).None?
    ensures var r := SkillAdditionAsWritten(skills, available, skill);
      r.Some? ==> && |r.value| > |skills| && r.value[..|skills|] == skills
                  && forall x :: x in r.value[|skills|..] <==>
                       exists i :: 0 <= i < |InputSkills(Trim(skill))|
                         && !IsDuplicate(skills, InputSkills(Trim(skill))[i])
                         && x == FinalSkill(available, InputSkills(Trim(skill))[i])
    ensures Trim(skill) != [] ==>
      (SkillAdditionAsWritten(skills, available, skill).None?
       <==> Covered(skills, InputSkills(Trim(skill))))
  {
    if Trim(skill) != [] {
      var items := InputSkills(Trim(skill));
      var added := AddedSkills(skills, available, items);
      AddedSkillsNone(skills, available, items);
      var r := skills + added;
      assert r[..|skills|] == skills;
      assert r[|skills|..] == added;
      forall x
        ensures x in added <==> exists i :: 0 <= i < |items| && !IsDuplicate(skills, items[i]) && x == FinalSkill(available, items[i])
      {
        AddedSkillsMember(skills, available, items, x);
      }
    }
  }

  /** Blank input changes nothing; a change keeps the selected skills in
      front and appends only skills new up to case; no change happens
      exactly when every typed skill is already selected up to case. */
  lemma SkillAdditionSpec(skills: seq<string>, available: seq<string>, skill: string)
    requires AllTrimmed(available)
    ensures Trim(skill) == [] ==> SkillAddition(skills, available, skill).None?
    ensures var r := SkillAddition(skills, available, skill);
      r.Some? ==> && |r.value| > |skills| && r.value[..|skills|] == skills
                  && Fresh(skills, r.value[|skills|..])
    ensures Trim(skill) != [] ==>
      (SkillAddition(skills, available, skill).None?
       <==> Covered(skills, InputSkills(Trim(skill))))
  {
    if Trim(skill) != [] {
      var items := InputSkills(Trim(skill));
      var added := AddedSkillsOnce(skills, available, items);
      AddedSkillsOnceOutcome(skills, available, items);
      var r := skills + added;
      assert r[..|skills|] == skills;
      assert r[|skills|..] == added;
    }
  }

  /** The added skills are fresh, and there are none exactly when every
      item is already selected up to case. */
  lemma AddedSkillsOnceOutcome(skills: seq<string>, available: seq<string>, items: seq<string>)
    requires AllTrimmed(items) && AllTrimmed(available)
    ensures Fresh(skills, AddedSkillsOnce(skills, available, items))
    ensures AddedSkillsOnce(skills, available, items) == [] <==> Covered(skills, items)
  {
    var added := AddedSkillsOnce(skills, available, items);
    AddedSkillsOnceFresh(skills, available, items);
    AddedSkillsOnceCovers(skills, available, items);
    if added == [] {
      assert skills + added == skills;
    } else {
      AddedSkillsOnceOrigin(skills, available, items);
      var k := Key(added[0]);
      assert k in Keys(items) && k !in Keys(skills);
      var j :| 0 <= j < |items| && Keys(items)[j] == k;
      LowerKeepsTrimmed(items[j]);
      assert !IsDuplicate(skills, items[j]);
    }
  }

  /** `addSkill`. */
  method AddSkill(skills: seq<string>, available: seq<string>, skill: string)
    returns (changed: Option<seq<string>>)
    ensures changed == SkillAddition(skills, available, skill)
  {
    if Trim(skill) == [] {
      return None;
    }
    var skillToProcess := Trim(skill);
    var skillsToAdd := InputSkills(skillToProcess);
    var newSkills := skills;
    for i := 0 to |skillsToAdd|
      invariant newSkills == skills + AddedSkillsOnce(skills, available, skillsToAdd[..i])
    {
      var skillItem := skillsToAdd[i];
      ghost var prev := AddedSkillsOnce(skills, available, skillsToAdd[..i]);
      AddedSkillsOncePrefix(skills, available, skillsToAdd, i);
      if !IsDuplicate(newSkills, skillItem) {
        ConcatAssoc(skills, prev, [FinalSkill(available, skillItem)]);
        newSkills := newSkills + [FinalSkill(available, skillItem)];
      }
    }
    assert skillsToAdd[..|skillsToAdd|] == skillsToAdd;
    if |newSkills| > |skills| {
      changed := Some(newSkills);
    } else {
      changed := None;
    }
  }

  // ---------------------------------------------------------------------
  // SkillsForm: suggestions while typing

  const MaxSuggestions: nat := 5

  /** A known skill is offered when no selected skill equals it up to case
      and it contains the lowercased, trimmed input or is contained in it. */
  predicate Suggestible(skill: string, query: string, selected: seq<string>)
  {
    && (forall i :: 0 <= i < |selected| ==> ToLower(selected[i]) != ToLower(skill))
    && (Contains(ToLower(skill), query) || Contains(query, ToLower(skill)))
  }

  /** The filtered known skills, in their order. */
  function SuggestionPool(available: seq<string>, query: string, selected: seq<string>): (r: seq<string>)
    ensures |r| <= |available|
    decreases |available|
  {
    if available == [] then []
    else
      var pool := SuggestionPool(available[..|available| - 1], query, selected);
      var skill := available[|available| - 1];
      if Suggestible(skill, query, selected) then pool + [skill] else pool
  }

  lemma {:induction false} SuggestionPoolMember(available: seq<string>, query: string, selected: seq<string>, x: string)
    ensures x in SuggestionPool(available, query, selected) <==> x in available && Suggestible(x, query, selected)
    decreases |available|
  {
    if available != [] {
      var available' := available[..|available| - 1];
      SuggestionPoolMember(available', query, selected, x);
      assert available == available' + [available[|available| - 1]];
    }
  }

  /** The suggestions shown under the input. */
  function Suggestions(newSkill: string, available: seq<string>, selected: seq<string>): seq<string>
  {
    if Trim(newSkill) == [] then []
    else
      var pool := SuggestionPool(available, Trim(ToLower(newSkill)), selected);
      pool[..if |pool| <= MaxSuggestions then |pool| else MaxSuggestions]
  }

  /** Nothing for blank input; otherwise at most five, the first matching
      known skills in order; each is known and suggestible; when at most
      five match, all of them are shown. */
  lemma SuggestionsSpec(newSkill: string, available: seq<string>, selected: seq<string>, x: string)
    ensures Trim(newSkill) == [] ==> Suggestions(newSkill, available, selected) == []
    ensures var r := Suggestions(newSkill, available, selected);
      && |r| <= MaxSuggestions
      && (forall i :: 0 <= i < |r| ==> r[i] in available && Suggestible(r[i], Trim(ToLower(newSkill)), selected))
    ensures var pool := SuggestionPool(available, Trim(ToLower(newSkill)), selected);
      Trim(newSkill) != [] ==>
        && Suggestions(newSkill, available, selected) == pool[..|Suggestions(newSkill, available, selected)|]
        && (|pool| <= MaxSuggestions ==>
              (x in Suggestions(newSkill, available, selected) <==> x in available && Suggestible(x, Trim(ToLower(newSkill)), selected)))
  {
    var q := Trim(ToLower(newSkill));
    var pool := SuggestionPool(available, q, selected);
    SuggestionPoolMember(available, q, selected, x);
    var r := Suggestions(newSkill, available, selected);
    forall i | 0 <= i < |r|
      ensures r[i] in available && Suggestible(r[i], q, selected)
    {
      assert r[i] == pool[i];
      SuggestionPoolMember(available, q, selected, r[i]);
    }
    if Trim(newSkill) != [] && |pool| <= MaxSuggestions {
      assert r == pool;
    }
  }

  // ---------------------------------------------------------------------
  // Removing a skill (the same in both editors)

  /** `skills.filter(skill => skill !== skillToRemove)`. */
  function RemovedSkill(skills: seq<string>, skillToRemove: string): (r: seq<string>)
    ensures skillToRemove !in r
  {
    Without(skills, {skillToRemove})
  }

  /** Every other skill stays, and in order: the result is the list with
      every copy of the removed skill taken out. */
  lemma RemovedSkillMember(skills: seq<string>, skillToRemove: string, x: string)
    ensures x in RemovedSkill(skills, skillToRemove) <==> x in skills && x != skillToRemove
  {
    var r := RemovedSkill(skills, skillToRemove);
    if x in r {
      var i :| 0 <= i < |r| && r[i] == x;
    }
    if x in skills && x != skillToRemove {
      var i :| 0 <= i < |skills| && skills[i] == x;
    }
  }

  lemma {:induction false} WithoutAbsent(skills: seq<string>, x: string)
    requires x !in skills
    ensures Without(skills, {x}) == skills
    decreases |skills|
  {
    if skills != [] {
      var skills' := skills[..|skills| - 1];
      assert skills == skills' + [skills[|skills| - 1]];
      WithoutAbsent(skills', x);
    }
  }

  /** Removing a skill just added undoes the addition. */
  lemma RemoveAfterAdd(skills: seq<string>, x: string)
    requires x !in skills
    ensures RemovedSkill(skills + [x], x) == skills
  {
    WithoutSnoc(skills, x, {x});
    WithoutAbsent(skills, x);
  }

  /** Removing twice is removing once. */
  lemma RemoveTwice(skills: seq<string>, x: string)
    ensures RemovedSkill(RemovedSkill(skills, x), x) == RemovedSkill(skills, x)
  {
    WithoutAbsent(RemovedSkill(skills, x), x);
  }

  // ---------------------------------------------------------------------
  // SkillsTableRow: adding typed skills

  /** What SkillsTableRow's `addSkill` hands to `onValueChange`: nothing for
      blank input; otherwise the skills followed by each typed skill not
      yet in the list, compared exactly, in first-typed order. */
  function TableRowAddition(skills: seq<string>, newSkill: string): Option<seq<string>>
  {
    if Trim(newSkill) == [] then None
    else Some(skills + Dedup(Without(InputSkills(newSkill), ToSet(skills))))
  }

  /** SkillsTableRow's `addSkill`. Unlike SkillsForm it splits the text as
      typed, compares exactly and reports the list even when it is
      unchanged. */
  method TableRowAddSkill(skills: seq<string>, newSkill: string) returns (changed: Option<seq<string>>)
    ensures changed == TableRowAddition(skills, newSkill)
  {
    if Trim(newSkill) == [] {
      return None;
    }
    var skillsToAdd := InputSkills(newSkill);
    var newSkills := PushAbsent(skills, skillsToAdd);
    changed := Some(newSkills);
  }

  /** The table row's loop: each typed skill is pushed unless the list
      being built already holds it. */
  method PushAbsent<T(==)>(skills: seq<T>, skillsToAdd: seq<T>) returns (newSkills: seq<T>)
    ensures newSkills == skills + Dedup(Without(skillsToAdd, ToSet(skills)))
  {
    newSkills := skills;
    ghost var s := ToSet(skills);
    assert skillsToAdd[..0] == [];
    for i := 0 to |skillsToAdd|
      invariant newSkills == skills + Dedup(Without(skillsToAdd[..i], s))
    {
      var skill := skillsToAdd[i];
      PrefixSnoc(skillsToAdd, i);
      TableRowStep(skills, s, skillsToAdd[..i], skill);
      if skill !in newSkills {
        newSkills := newSkills + [skill];
      }
    }
    assert skillsToAdd[..|skillsToAdd|] == skillsToAdd;
  }

  /** One step of the table row's loop: pushing a skill only when the
      list lacks it extends the `Set`-style description by that skill. */
  lemma TableRowStep<T>(skills: seq<T>, s: set<T>, done: seq<T>, skill: T)
    requires s == ToSet(skills)
    ensures var n := skills + Dedup(Without(done, s));
      (if skill in n then n else n + [skill]) == skills + Dedup(Without(done + [skill], s))
  {
    var w := Without(done, s);
    var d := Dedup(w);
    var n := skills + d;
    WithoutSnoc(done, skill, s);
    if skill in s {
      assert skill in skills;
      assert skill in n;
    } else {
      DedupAdd(w, skill);
      assert skill !in skills;
      assert skill in n <==> skill in d;
      ConcatAssoc(skills, d, [skill]);
    }
  }

  /** On a list without repeats the table row behaves as a `Set`: the result
      is the list and the typed skills, de-duplicated in order, and has no
      repeats either. */
  lemma TableRowAsSet(skills: seq<string>, newSkill: string)
    requires NoDups(skills)
    requires Trim(newSkill) != []
    ensures TableRowAddition(skills, newSkill) == Some(Dedup(skills + InputSkills(newSkill)))
    ensures NoDups(TableRowAddition(skills, newSkill).value)
  {
    DedupAppend(skills, InputSkills(newSkill));
    DedupOfNoDups(skills);
  }
}

/** The editing logic shared by the two résumé views,
    `src/app/resume-parser/ParsedForm.tsx` and
    `src/app/resume-parser/ResumeTable.tsx`: what a field save stores, how
    the skill list shown to the user is flattened from the résumé, how an
    edited skill list is regrouped into categories, and the helpers that
    change one field of one entry of a copy of the résumé. Both files hold
    the same code for the flattening, the regrouping and the helpers; they
    differ only in how a list field is saved. */
module ResumeEditing {
  import opened Wrappers
  import opened Strings
  import ExtractProfile
  import ExtractSkills
  import ExtractEducation
  import ExtractCertifications

  // ---------------------------------------------------------------------
  // Saving an edited field

  const PhoneLabel := "Phone"

  /** What saving a text field stores: the trimmed input; for the field
      labelled "Phone" with at least ten digits, the digits grouped as
      "ddddd ddddd" or "+cc ddddd ddddd". */
  function SavedText(fieldLabel: string, editValue: string): string
  {
    var v := Trim(editValue);
    var digits := Digits(v);
    if fieldLabel == PhoneLabel && |digits| >= 10 then ExtractProfile.GroupedPhone(digits) else v
  }

  /** The three outcomes of a save, stated on the digits of the trimmed
      input. */
  lemma SavedTextCases(fieldLabel: string, editValue: string)
    ensures var r, d := SavedText(fieldLabel, editValue), Digits(Trim(editValue));
      && (fieldLabel != PhoneLabel || |d| < 10 ==> r == Trim(editValue))
      && (fieldLabel == PhoneLabel && |d| == 10 ==> r == d[..5] + " " + d[5..] && |r| == 11)
      && (fieldLabel == PhoneLabel && |d| > 10 ==>
            r == "+" + d[..|d| - 10] + " " + d[|d| - 10..|d| - 5] + " " + d[|d| - 5..] && |r| == |d| + 3)
  {
  }

  /** A grouped phone has no white space at its ends. */
  lemma GroupedPhoneTrimmed(d: string)
    requires |d| >= 10 && AllDigits(d)
    ensures IsTrimmed(ExtractProfile.GroupedPhone(d))
  {
    var g := ExtractProfile.GroupedPhone(d);
    assert g[|g| - 1] == d[|d| - 1];
    assert !IsWhite(d[|d| - 1]);
    if |d| == 10 {
      assert g[0] == d[0];
      assert !IsWhite(d[0]);
    } else {
      assert g[0] == '+';
    }
  }

  /** The saved value keeps the digits of the input in order, and saving it
      again stores the same value. */
  lemma SavedTextStable(fieldLabel: string, editValue: string)
    ensures fieldLabel == PhoneLabel ==> Digits(SavedText(fieldLabel, editValue)) == Digits(Trim(editValue))
    ensures SavedText(fieldLabel, SavedText(fieldLabel, editValue)) == SavedText(fieldLabel, editValue)
  {
    var v := Trim(editValue);
    var d := Digits(v);
    TrimShape(editValue);
    if fieldLabel == PhoneLabel && |d| >= 10 {
      ExtractProfile.GroupedPhoneLayout(d);
      GroupedPhoneTrimmed(d);
      TrimOfTrimmed(ExtractProfile.GroupedPhone(d));
    } else {
      TrimOfTrimmed(v);
    }
  }

  /** `s.split(sep).map(x => x.trim()).filter(Boolean)`: the pieces
      between separators, trimmed, with the empty ones dropped. */
  function TrimmedPieces(s: string, sep: char): (r: seq<string>)
    ensures forall i :: 0 <= i < |r| ==> r[i] != [] && IsTrimmed(r[i])
  {
    TrimmedItems(Split(s, {sep}))
  }

  /** `FormFieldArray.saveChanges` in ParsedForm: the edited text, one
      item per line. */
  function SavedLines(editValue: string): seq<string>
  {
    TrimmedPieces(editValue, '\n')
  }

  /** Editing starts from the items joined with newlines; saving that text
      unchanged gives back the items when they are clean. */
  lemma SavedLinesRoundTrip(values: seq<string>)
    requires forall i :: 0 <= i < |values| ==> values[i] != [] && IsTrimmed(values[i]) && NoneIn(values[i], {'\n'})
    ensures SavedLines(Join(values, "\n")) == values
  {
    if values == [] {
      assert Split([], {'\n'}) == [[]];
      assert Trim([]) == [];
    } else {
      assert "\n" == ['\n'];
      SplitJoin(values, '\n');
      assert Split(Join(values, "\n"), {'\n'}) == values;
      TrimmedItemsOfClean(values);
    }
  }

  /** `TableRow.saveChanges` in ResumeTable for a list: lines whose trimmed
      text is empty are dropped, the others are kept as they are. */
  function KeptLines(editValue: seq<string>): seq<string>
  {
    NonBlank(editValue)
  }

  lemma KeptLinesSpec(editValue: seq<string>, x: string)
    ensures x in KeptLines(editValue) <==> x in editValue && Trim(x) != []
    ensures |KeptLines(editValue)| <= |editValue|
    ensures KeptLines(KeptLines(editValue)) == KeptLines(editValue)
  {
    NonBlankMember(editValue, x);
    NonBlankIdempotent(editValue);
  }

  // ---------------------------------------------------------------------
  // The flat skill list shown to the user

  /** The comma-separated items of a skill line. */
  function CommaItems(s: string): seq<string>
  {
    TrimmedPieces(s, ',')
  }

  /** `s.includes(':') && s.split(':').length === 2`: exactly one colon. */
  predicate OneColon(s: string)
  {
    Count(s, {':'}) == 1
  }

  /** The text after the only colon. */
  function AfterColon(s: string): string
    requires OneColon(s)
  {
    Split(s, {':'})[1]
  }

  /** One description's skills: "cat: a, b" gives its trimmed, non-empty
      comma pieces after the colon; any other description is one skill,
      as it is. */
  function DescriptionSkills(description: string): seq<string>
  {
    if OneColon(description) then CommaItems(AfterColon(description)) else [description]
  }

  /** One trimmed featured skill's pieces: the comma pieces after the only
      colon, or else the comma pieces of the whole text. */
  function FeaturedSkillPieces(skill: string): seq<string>
  {
    if OneColon(skill) then CommaItems(AfterColon(skill)) else CommaItems(skill)
  }

  function FlatDescriptions(descriptions: seq<string>): seq<string>
    decreases |descriptions|
  {
    if descriptions == [] then []
    else FlatDescriptions(descriptions[..|descriptions| - 1]) + DescriptionSkills(descriptions[|descriptions| - 1])
  }

  function FlatFeatured(skills: seq<string>): seq<string>
    decreases |skills|
  {
    if skills == [] then []
    else FlatFeatured(skills[..|skills| - 1]) + FeaturedSkillPieces(skills[|skills| - 1])
  }

  function SkillTexts(featured: seq<ExtractSkills.FeaturedSkill>): (r: seq<string>)
    ensures |r| == |featured| && forall i :: 0 <= i < |r| ==> r[i] == featured[i].skill
  {
    seq(|featured|, i requires 0 <= i < |featured| => featured[i].skill)
  }

  /** The non-blank featured skills, trimmed. */
  function FeaturedTrimmed(featured: seq<ExtractSkills.FeaturedSkill>): seq<string>
  {
    TrimmedItems(SkillTexts(featured))
  }

  /** The list shown to the user: the featured pieces, then the description
      skills, as a `Set` keeps them. */
  function CombinedSkills(skills: ExtractSkills.ResumeSkills): (r: seq<string>)
    ensures NoDups(r)
  {
    Dedup(FlatFeatured(FeaturedTrimmed(skills.featuredSkills)) + FlatDescriptions(skills.descriptions))
  }

  /** Featured pieces come first in their own first-occurrence order,
      followed by the description skills they do not already hold; a skill
      is shown iff it is a featured piece or a description skill. */
  lemma CombinedSkillsSpec(skills: ExtractSkills.ResumeSkills, x: string)
    ensures var f, d := FlatFeatured(FeaturedTrimmed(skills.featuredSkills)), FlatDescriptions(skills.descriptions);
      && CombinedSkills(skills) == Dedup(f) + Dedup(Without(d, ToSet(f)))
      && (x in CombinedSkills(skills) <==> x in f || x in d)
  {
    var f, d := FlatFeatured(FeaturedTrimmed(skills.featuredSkills)), FlatDescriptions(skills.descriptions);
    DedupAppend(f, d);
    DedupMember(f + d, x);
  }

  // ---------------------------------------------------------------------
  // The "cat: a, b" description format

  /** The description `updateSkills` writes for one category. */
  function CategoryLine(category: string, items: seq<string>): string
  {
    category + ": " + Join(items, ", ")
  }

  /** Each item with a space in front. */
  function Padded(items: seq<string>): (r: seq<string>)
    ensures |r| == |items| && forall i :: 0 <= i < |r| ==> r[i] == " " + items[i]
  {
    seq(|items|, i requires 0 <= i < |items| => " " + items[i])
  }

  lemma {:induction false} JoinPadded(items: seq<string>)
    requires |items| > 0
    ensures " " + Join(items, ", ") == Join(Padded(items), ",")
    decreases |items|
  {
    if |items| > 1 {
      JoinPadded(items[1..]);
      assert Padded(items)[1..] == Padded(items[1..]);
    }
  }

  lemma {:induction false} TrimmedItemsOfPadded(items: seq<string>)
    requires forall i :: 0 <= i < |items| ==> items[i] != [] && IsTrimmed(items[i])
    ensures TrimmedItems(Padded(items)) == items
    decreases |items|
  {
    if items != [] {
      var p, x := items[..|items| - 1], items[|items| - 1];
      assert items == p + [x];
      assert Padded(items)[..|items| - 1] == Padded(p);
      TrimmedItemsOfPadded(p);
      assert AllWhite(" ") && AllWhite("");
      TrimPadded(" ", x, "");
      assert " " + x + "" == " " + x;
      TrimOfTrimmed(x);
    }
  }

  /** Flattening reads back exactly the items a category line was written
      from, when the category has no colon and the items are trimmed,
      non-empty and free of commas and colons. */
  lemma CategoryLineSkills(category: string, items: seq<string>)
    requires NoneIn(category, {':'})
    requires |items| > 0
    requires forall i :: 0 <= i < |items| ==> items[i] != [] && IsTrimmed(items[i]) && NoneIn(items[i], {',', ':'})
    ensures OneColon(CategoryLine(category, items))
    ensures DescriptionSkills(CategoryLine(category, items)) == items
  {
    var padded := Padded(items);
    var tail := Join(padded, ",");
    JoinPadded(items);
    assert CategoryLine(category, items) == category + [':'] + tail;
    forall i | 0 <= i < |padded|
      ensures NoneIn(padded[i], {','}) && NoneIn(padded[i], {':'})
    {
      assert padded[i] == " " + items[i];
    }
    JoinNoneIn(padded, ',', ':');
    SplitNone(tail, {':'});
    SplitOne(category, ':', tail);
    assert Split(CategoryLine(category, items), {':'}) == [category, tail];
    SplitJoin(padded, ',');
    TrimmedItemsOfPadded(items);
  }

  /** Pieces without `d`, joined with `c` (itself not `d`), have no `d`. */
  lemma {:induction false} JoinNoneIn(xs: seq<string>, c: char, d: char)
    requires c != d
    requires forall i :: 0 <= i < |xs| ==> NoneIn(xs[i], {d})
    ensures NoneIn(Join(xs, [c]), {d})
    decreases |xs|
  {
    if |xs| > 1 {
      JoinNoneIn(xs[1..], c, d);
      var j := Join(xs[1..], [c]);
      assert Join(xs, [c]) == xs[0] + [c] + j;
      forall i | 0 <= i < |xs[0] + [c] + j|
        ensures (xs[0] + [c] + j)[i] !in {d}
      {
        if i < |xs[0]| {
          assert (xs[0] + [c] + j)[i] == xs[0][i];
        } else if i > |xs[0]| {
          assert (xs[0] + [c] + j)[i] == j[i - |xs[0]| - 1];
        }
      }
    }
  }

  // ---------------------------------------------------------------------
  // Regrouping an edited skill list (`updateSkills`)

  const OtherCategory := "Other"

  /** `descriptions.some(desc => desc.includes(':'))`. */
  predicate HasCategories(descriptions: seq<string>)
  {
    exists i :: 0 <= i < |descriptions| && ':' in descriptions[i]
  }

  /** The category of a description with a colon: the trimmed text before
      its first colon. */
  function CategoryName(description: string): (r: string)
    ensures NoneIn(r, {':'})
  {
    var head := Split(description, {':'})[0];
    NoneInTrim(head, {':'});
    Trim(head)
  }

  lemma NoneInTrim(s: string, cs: set<char>)
    requires NoneIn(s, cs)
    ensures NoneIn(Trim(s), cs)
  {
    var t := TrimStart(s);
    var r := Trim(s);
    TrimStartShape(s);
    TrimEndShape(t);
    forall i | 0 <= i < |r|
      ensures r[i] !in cs
    {
      assert r[i] == t[i] == s[|s| - |t| + i];
    }
  }

  /** The category names of the descriptions with a colon, in order. */
  function ColonNames(descriptions: seq<string>): (r: seq<string>)
    ensures forall i :: 0 <= i < |r| ==> NoneIn(r[i], {':'})
    decreases |descriptions|
  {
    if descriptions == [] then []
    else
      var d := descriptions[|descriptions| - 1];
      ColonNames(descriptions[..|descriptions| - 1]) + (if ':' in d then [CategoryName(d)] else [])
  }

  lemma ColonNamesSnoc(descriptions: seq<string>, i: nat)
    requires i < |descriptions|
    ensures ColonNames(descriptions[..i + 1]) == ColonNames(descriptions[..i])
      + (if ':' in descriptions[i] then [CategoryName(descriptions[i])] else [])
  {
    assert descriptions[..i + 1][..i] == descriptions[..i];
  }

  /** The keys of the category map, in insertion order: the category names,
      each once, then "Other" unless a category already has that name. */
  function CategoryKeys(descriptions: seq<string>): (keys: seq<string>)
    ensures NoDups(keys) && OtherCategory in keys
    ensures forall i :: 0 <= i < |keys| ==> NoneIn(keys[i], {':'})
  {
    var names := Dedup(ColonNames(descriptions));
    if OtherCategory in names then names else names + [OtherCategory]
  }

  /** "Other" is the last key unless a category is already named so. */
  lemma OtherKeyLast(descriptions: seq<string>)
    ensures var keys := CategoryKeys(descriptions);
      OtherCategory !in ColonNames(descriptions) ==> keys[|keys| - 1] == OtherCategory
    ensures OtherCategory in ColonNames(descriptions) ==> CategoryKeys(descriptions) == Dedup(ColonNames(descriptions))
  {
    DedupMember(ColonNames(descriptions), OtherCategory);
  }

  /** `descriptions.find(desc => desc.startsWith(category + ':') &&
      desc.toLowerCase().includes(skill.toLowerCase()))`. */
  function FindDescription(descriptions: seq<string>, category: string, skill: string): (r: Option<string>)
    ensures r.Some? <==> exists i :: 0 <= i < |descriptions| && StartsWith(descriptions[i], category + ":")
                                     && ContainsIgnoreCase(descriptions[i], skill)
    decreases |descriptions|
  {
    if descriptions == [] then None
    else if StartsWith(descriptions[0], category + ":") && ContainsIgnoreCase(descriptions[0], skill) then Some(descriptions[0])
    else
      var r := FindDescription(descriptions[1..], category, skill);
      assert forall i :: 1 <= i < |descriptions| ==> descriptions[1..][i - 1] == descriptions[i];
      r
  }

  /** The category a skill goes to: the first key, in key order, whose
      category has an original description holding the skill; else "Other". */
  function CategoryOf(descriptions: seq<string>, keys: seq<string>, skill: string): (c: string)
    ensures c == OtherCategory || c in keys
    decreases |keys|
  {
    if keys == [] then OtherCategory
    else if FindDescription(descriptions, keys[0], skill).Some? then keys[0]
    else CategoryOf(descriptions, keys[1..], skill)
  }

  /** The first key that holds the skill is its category. */
  lemma {:induction false} CategoryOfFirst(descriptions: seq<string>, keys: seq<string>, skill: string, j: nat)
    requires j < |keys| && FindDescription(descriptions, keys[j], skill).Some?
    requires forall t :: 0 <= t < j ==> FindDescription(descriptions, keys[t], skill).None?
    ensures CategoryOf(descriptions, keys, skill) == keys[j]
    decreases j
  {
    if j > 0 {
      CategoryOfFirst(descriptions, keys[1..], skill, j - 1);
    }
  }

  /** A skill no key holds goes to "Other". */
  lemma {:induction false} CategoryOfNone(descriptions: seq<string>, keys: seq<string>, skill: string)
    requires forall t :: 0 <= t < |keys| ==> FindDescription(descriptions, keys[t], skill).None?
    ensures CategoryOf(descriptions, keys, skill) == OtherCategory
    decreases |keys|
  {
    if keys != [] {
      CategoryOfNone(descriptions, keys[1..], skill);
    }
  }

  /** The skills, in their order, that go to `category`. */
  function Members(descriptions: seq<string>, keys: seq<string>, values: seq<string>, category: string): (r: seq<string>)
    ensures |r| <= |values|
    ensures forall i :: 0 <= i < |r| ==> r[i] in values
    decreases |values|
  {
    if values == [] then []
    else
      var v := values[|values| - 1];
      var rest := Members(descriptions, keys, values[..|values| - 1], category);
      assert forall x :: x in values[..|values| - 1] ==> x in values;
      if CategoryOf(descriptions, keys, v) == category then rest + [v] else rest
  }

  /** One "cat: a, b" line per category of `ks` that received a skill, in
      the order of `ks`. */
  function RegroupedLines(descriptions: seq<string>, keys: seq<string>, values: seq<string>, ks: seq<string>): seq<string>
    decreases |ks|
  {
    if ks == [] then []
    else
      var k := ks[|ks| - 1];
      var items := Members(descriptions, keys, values, k);
      RegroupedLines(descriptions, keys, values, ks[..|ks| - 1])
      + (if |items| > 0 then [CategoryLine(k, items)] else [])
  }

  /** The descriptions `updateSkills` stores for the edited skill list. */
  function UpdatedDescriptions(descriptions: seq<string>, values: seq<string>): seq<string>
  {
    if HasCategories(descriptions) then
      var keys := CategoryKeys(descriptions);
      RegroupedLines(descriptions, keys, values, keys)
    else values
  }

  method UpdateSkillDescriptions(descriptions: seq<string>, values: seq<string>)
    returns (newDescriptions: seq<string>)
    ensures newDescriptions == UpdatedDescriptions(descriptions, values)
  {
    var originalHadCategories := exists i | 0 <= i < |descriptions| :: ':' in descriptions[i];
    if !originalHadCategories {
      return values;
    }
    var keys := CollectCategories(descriptions);
    var categoryMap := AssignSkills(descriptions, keys, values);
    newDescriptions := [];
    for j := 0 to |keys|
      invariant newDescriptions == RegroupedLines(descriptions, keys, values, keys[..j])
    {
      RegroupedSnoc(descriptions, keys, values, keys, j);
      var category := keys[j];
      var categorySkills := categoryMap[category];
      if |categorySkills| > 0 {
        newDescriptions := newDescriptions + [category + ": " + Join(categorySkills, ", ")];
      }
    }
    assert keys[..|keys|] == keys;
  }

  lemma RegroupedSnoc(descriptions: seq<string>, keys: seq<string>, values: seq<string>, ks: seq<string>, j: nat)
    requires j < |ks|
    ensures var items := Members(descriptions, keys, values, ks[j]);
      RegroupedLines(descriptions, keys, values, ks[..j + 1])
      == RegroupedLines(descriptions, keys, values, ks[..j]) + (if |items| > 0 then [CategoryLine(ks[j], items)] else [])
  {
    assert ks[..j + 1][..j] == ks[..j];
  }

  /** The first `forEach`: a map key per category name, then "Other". */
  method CollectCategories(descriptions: seq<string>) returns (keys: seq<string>)
    ensures keys == CategoryKeys(descriptions)
  {
    keys := [];
    for i := 0 to |descriptions|
      invariant keys == Dedup(ColonNames(descriptions[..i]))
    {
      var desc := descriptions[i];
      ColonNamesSnoc(descriptions, i);
      if ':' in desc {
        var category := CategoryName(desc);
        DedupAdd(ColonNames(descriptions[..i]), category);
        if category !in keys {
          keys := keys + [category];
        }
        assert keys == Dedup(ColonNames(descriptions[..i]) + [category]);
      } else {
        assert ColonNames(descriptions[..i + 1]) == ColonNames(descriptions[..i]);
      }
    }
    assert descriptions[..|descriptions|] == descriptions;
    if OtherCategory !in keys {
      keys := keys + [OtherCategory];
    }
  }

  /** The second `forEach`: each skill is pushed to the first category
      holding it, or else to "Other". */
  method AssignSkills(descriptions: seq<string>, keys: seq<string>, values: seq<string>)
    returns (categoryMap: map<string, seq<string>>)
    requires NoDups(keys) && OtherCategory in keys
    ensures forall k :: k in keys ==> k in categoryMap && categoryMap[k] == Members(descriptions, keys, values, k)
  {
    categoryMap := map k | k in keys :: [];
    for i := 0 to |values|
      invariant GroupedBy(categoryMap, descriptions, keys, values[..i])
    {
      var skill := values[i];
      var placed := PlaceSkill(descriptions, keys, categoryMap, skill);
      PlaceSkillStep(descriptions, keys, values, i, categoryMap, placed);
      categoryMap := placed;
    }
    assert values[..|values|] == values;
  }

  /** Each category's list holds the skills of `values` that go to it. */
  predicate GroupedBy(categoryMap: map<string, seq<string>>, descriptions: seq<string>, keys: seq<string>, values: seq<string>)
  {
    forall k :: k in keys ==> k in categoryMap && categoryMap[k] == Members(descriptions, keys, values, k)
  }

  lemma PlaceSkillStep(descriptions: seq<string>, keys: seq<string>, values: seq<string>, i: nat,
                       categoryMap: map<string, seq<string>>, placed: map<string, seq<string>>)
    requires i < |values| && GroupedBy(categoryMap, descriptions, keys, values[..i])
    requires var c := CategoryOf(descriptions, keys, values[i]);
      c in categoryMap && placed == categoryMap[c := categoryMap[c] + [values[i]]]
    ensures GroupedBy(placed, descriptions, keys, values[..i + 1])
  {
    PrefixSnoc(values, i);
    forall k | k in keys
      ensures k in placed && placed[k] == Members(descriptions, keys, values[..i + 1], k)
    {
      MembersSnoc(descriptions, keys, values[..i], values[i], k);
    }
  }

  /** The callback of the second `forEach`: the skill is appended to the
      list of its category and every other list stays as it is. */
  method PlaceSkill(descriptions: seq<string>, keys: seq<string>, categoryMap: map<string, seq<string>>, skill: string)
    returns (newMap: map<string, seq<string>>)
    requires OtherCategory in keys
    requires forall k :: k in keys ==> k in categoryMap
    ensures var c := CategoryOf(descriptions, keys, skill);
      c in categoryMap && newMap == categoryMap[c := categoryMap[c] + [skill]]
  {
    newMap := categoryMap;
    var placed := false;
    for j := 0 to |keys|
      invariant !placed
      invariant forall t :: 0 <= t < j ==> FindDescription(descriptions, keys[t], skill).None?
    {
      var originalDesc := FindDescription(descriptions, keys[j], skill);
      if originalDesc.Some? {
        CategoryOfFirst(descriptions, keys, skill, j);
        newMap := categoryMap[keys[j] := categoryMap[keys[j]] + [skill]];
        placed := true;
        break;
      }
    }
    if !placed {
      CategoryOfNone(descriptions, keys, skill);
      newMap := categoryMap[OtherCategory := categoryMap[OtherCategory] + [skill]];
    }
  }

  // ---------------------------------------------------------------------
  // What the regrouping keeps

  /** Without a category in the original descriptions, the edited values
      are stored as they are. */
  lemma NoCategoriesVerbatim(descriptions: seq<string>, values: seq<string>)
    requires forall i :: 0 <= i < |descriptions| ==> ':' !in descriptions[i]
    ensures UpdatedDescriptions(descriptions, values) == values
  {
  }

  /** The skills of the categories of `ks`, category after category. */
  function GroupsFlat(descriptions: seq<string>, keys: seq<string>, values: seq<string>, ks: seq<string>): seq<string>
    decreases |ks|
  {
    if ks == [] then []
    else GroupsFlat(descriptions, keys, values, ks[..|ks| - 1]) + Members(descriptions, keys, values, ks[|ks| - 1])
  }

  lemma MembersSnoc(descriptions: seq<string>, keys: seq<string>, values: seq<string>, v: string, k: string)
    ensures Members(descriptions, keys, values + [v], k)
            == Members(descriptions, keys, values, k) + (if CategoryOf(descriptions, keys, v) == k then [v] else [])
  {
    assert (values + [v])[..|values|] == values;
  }

  lemma {:induction false} GroupsFlatSnoc(descriptions: seq<string>, keys: seq<string>, values: seq<string>, v: string, ks: seq<string>)
    requires NoDups(ks)
    ensures multiset(GroupsFlat(descriptions, keys, values + [v], ks))
            == multiset(GroupsFlat(descriptions, keys, values, ks))
               + (if CategoryOf(descriptions, keys, v) in ks then multiset{v} else multiset{})
    decreases |ks|
  {
    if ks != [] {
      var p, k := ks[..|ks| - 1], ks[|ks| - 1];
      assert ks == p + [k];
      assert NoDups(p);
      assert k !in p;
      GroupsFlatSnoc(descriptions, keys, values, v, p);
      MembersSnoc(descriptions, keys, values, v, k);
    }
  }

  /** Every edited skill lands in exactly one category: the categories'
      lists together are a rearrangement of the edited values. */
  lemma {:induction false} GroupsPartition(descriptions: seq<string>, keys: seq<string>, values: seq<string>)
    requires NoDups(keys) && OtherCategory in keys
    ensures multiset(GroupsFlat(descriptions, keys, values, keys)) == multiset(values)
    decreases |values|
  {
    if values == [] {
      GroupsFlatEmpty(descriptions, keys, keys);
    } else {
      var p, v := values[..|values| - 1], values[|values| - 1];
      assert values == p + [v];
      GroupsPartition(descriptions, keys, p);
      GroupsFlatSnoc(descriptions, keys, p, v, keys);
    }
  }

  lemma {:induction false} GroupsFlatEmpty(descriptions: seq<string>, keys: seq<string>, ks: seq<string>)
    ensures GroupsFlat(descriptions, keys, [], ks) == []
    decreases |ks|
  {
    if ks != [] {
      GroupsFlatEmpty(descriptions, keys, ks[..|ks| - 1]);
    }
  }

  /** A skill the editors can write back unchanged: trimmed, not empty, and
      free of the separators of the "cat: a, b" format. */
  predicate CleanSkill(v: string)
  {
    v != [] && IsTrimmed(v) && NoneIn(v, {',', ':'})
  }

  lemma {:induction false} FlatDescriptionsAppend(a: seq<string>, b: seq<string>)
    ensures FlatDescriptions(a + b) == FlatDescriptions(a) + FlatDescriptions(b)
    decreases |b|
  {
    if b == [] {
      assert a + b == a;
    } else {
      var last := DescriptionSkills(b[|b| - 1]);
      LastOfAppend(a, b);
      FlatDescriptionsAppend(a, b[..|b| - 1]);
      calc {
        FlatDescriptions(a + b);
        FlatDescriptions(a + b[..|b| - 1]) + last;
        (FlatDescriptions(a) + FlatDescriptions(b[..|b| - 1])) + last;
        { ConcatAssoc(FlatDescriptions(a), FlatDescriptions(b[..|b| - 1]), last); }
        FlatDescriptions(a) + (FlatDescriptions(b[..|b| - 1]) + last);
        FlatDescriptions(a) + FlatDescriptions(b);
      }
    }
  }

  lemma {:induction false} FlatRegrouped(descriptions: seq<string>, keys: seq<string>, values: seq<string>, ks: seq<string>)
    requires forall i :: 0 <= i < |values| ==> CleanSkill(values[i])
    requires forall i :: 0 <= i < |ks| ==> NoneIn(ks[i], {':'})
    ensures FlatDescriptions(RegroupedLines(descriptions, keys, values, ks)) == GroupsFlat(descriptions, keys, values, ks)
    decreases |ks|
  {
    if ks != [] {
      var p, k := ks[..|ks| - 1], ks[|ks| - 1];
      assert forall i :: 0 <= i < |p| ==> p[i] == ks[i];
      FlatRegrouped(descriptions, keys, values, p);
      var items := Members(descriptions, keys, values, k);
      assert GroupsFlat(descriptions, keys, values, ks) == GroupsFlat(descriptions, keys, values, p) + items;
      if |items| == 0 {
        assert RegroupedLines(descriptions, keys, values, ks) == RegroupedLines(descriptions, keys, values, p);
        assert items == [];
      } else {
        forall i | 0 <= i < |items|
          ensures items[i] != [] && IsTrimmed(items[i]) && NoneIn(items[i], {',', ':'})
        {
          assert items[i] in values;
        }
        CategoryLineSkills(k, items);
        var line := CategoryLine(k, items);
        FlatDescriptionsAppend(RegroupedLines(descriptions, keys, values, p), [line]);
        assert [line][..0] == [];
        assert FlatDescriptions([line]) == DescriptionSkills(line);
      }
    }
  }

  /** Flattening the stored descriptions gives back the edited skills,
      regrouped by category, when each skill is clean. */
  lemma RegroupRoundTrip(descriptions: seq<string>, values: seq<string>)
    requires forall i :: 0 <= i < |values| ==> CleanSkill(values[i])
    ensures multiset(FlatDescriptions(UpdatedDescriptions(descriptions, values))) == multiset(values)
  {
    if HasCategories(descriptions) {
      var keys := CategoryKeys(descriptions);
      FlatRegrouped(descriptions, keys, values, keys);
      GroupsPartition(descriptions, keys, values);
    } else {
      FlatOfPlain(values);
    }
  }

  /** Descriptions without a colon flatten to themselves. */
  lemma {:induction false} FlatOfPlain(values: seq<string>)
    requires forall i :: 0 <= i < |values| ==> NoneIn(values[i], {':'})
    ensures FlatDescriptions(values) == values
    decreases |values|
  {
    if values != [] {
      var p, v := values[..|values| - 1], values[|values| - 1];
      assert forall i :: 0 <= i < |p| ==> p[i] == values[i];
      FlatOfPlain(p);
      PlainDescriptionSkills(v);
      calc {
        FlatDescriptions(values);
        FlatDescriptions(p) + DescriptionSkills(v);
        p + [v];
        { FrontLast(values); }
        values;
      }
    }
  }

  lemma PlainDescriptionSkills(v: string)
    requires NoneIn(v, {':'})
    ensures DescriptionSkills(v) == [v]
  {
    CountZero(v, {':'});
  }

  // ---------------------------------------------------------------------
  // Featured skills after an edit

  /** `values.some(skill => item.skill.includes(skill))`. */
  predicate MentionsSome(skill: string, values: seq<string>)
  {
    exists i :: 0 <= i < |values| && Contains(skill, values[i])
  }

  /** The featured skills whose text contains one of the edited values, in
      their order. */
  function KeptFeatured(featured: seq<ExtractSkills.FeaturedSkill>, values: seq<string>): (r: seq<ExtractSkills.FeaturedSkill>)
    ensures |r| <= |featured|
    decreases |featured|
  {
    if featured == [] then []
    else
      var f := featured[|featured| - 1];
      KeptFeatured(featured[..|featured| - 1], values) + (if MentionsSome(f.skill, values) then [f] else [])
  }

  lemma {:induction false} KeptFeaturedMember(featured: seq<ExtractSkills.FeaturedSkill>, values: seq<string>, f: ExtractSkills.FeaturedSkill)
    ensures f in KeptFeatured(featured, values) <==> f in featured && MentionsSome(f.skill, values)
    decreases |featured|
  {
    if featured != [] {
      var p := featured[..|featured| - 1];
      assert featured == p + [featured[|featured| - 1]];
      KeptFeaturedMember(p, values, f);
    }
  }

  /** An empty edit clears the featured skills; an empty value among the
      edited ones keeps them all. */
  lemma {:induction false} KeptFeaturedEdges(featured: seq<ExtractSkills.FeaturedSkill>, values: seq<string>)
    ensures values == [] ==> KeptFeatured(featured, values) == []
    ensures "" in values ==> KeptFeatured(featured, values) == featured
    decreases |featured|
  {
    if featured != [] {
      var p := featured[..|featured| - 1];
      KeptFeaturedEdges(p, values);
      if "" in values {
        var i :| 0 <= i < |values| && values[i] == "";
        ContainsEmpty(featured[|featured| - 1].skill);
        assert MentionsSome(featured[|featured| - 1].skill, values);
        assert featured == p + [featured[|featured| - 1]];
      }
    }
  }

  /** `updateSkills` on the skills record of the copied résumé. */
  method UpdateSkills(skills: ExtractSkills.ResumeSkills, values: seq<string>) returns (updated: ExtractSkills.ResumeSkills)
    ensures updated.descriptions == UpdatedDescriptions(skills.descriptions, values)
    ensures updated.featuredSkills == KeptFeatured(skills.featuredSkills, values)
  {
    var descriptions := UpdateSkillDescriptions(skills.descriptions, values);
    var featured := FilterFeatured(skills.featuredSkills, values);
    updated := ExtractSkills.ResumeSkills(featured, descriptions);
  }

  /** `featuredSkills.filter(item => values.some(skill => item.skill.includes(skill)))`. */
  method FilterFeatured(featured: seq<ExtractSkills.FeaturedSkill>, values: seq<string>)
    returns (kept: seq<ExtractSkills.FeaturedSkill>)
    ensures kept == KeptFeatured(featured, values)
  {
    kept := [];
    for i := 0 to |featured|
      invariant kept == KeptFeatured(featured[..i], values)
    {
      assert featured[..i + 1][..i] == featured[..i];
      if MentionsSome(featured[i].skill, values) {
        kept := kept + [featured[i]];
      }
    }
    assert featured[..|featured|] == featured;
  }

  // ---------------------------------------------------------------------
  // Changing one field of one entry of a copy of the résumé

  datatype ResumeProfile = ResumeProfile(name: string, email: string, phone: string, url: string, summary: string, location: string)

  datatype ResumeWorkExperience = ResumeWorkExperience(company: string, jobTitle: string, date: string, descriptions: seq<string>)

  datatype ResumeProject = ResumeProject(project: string, date: string, descriptions: seq<string>)

  /** The résumé the views edit. Values, so every update below works on a
      copy and leaves its argument as it was. */
  datatype Resume = Resume(
    profile: ResumeProfile,
    educations: seq<ExtractEducation.ResumeEducation>,
    workExperiences: seq<ResumeWorkExperience>,
    projects: seq<ResumeProject>,
    skills: ExtractSkills.ResumeSkills,
    certifications: seq<ExtractCertifications.ResumeCertification>)

  datatype ProfileField = Name | Email | PhoneNumber | Url | Summary | Location

  function ProfileValue(p: ResumeProfile, field: ProfileField): string
  {
    match field
    case Name => p.name
    case Email => p.email
    case PhoneNumber => p.phone
    case Url => p.url
    case Summary => p.summary
    case Location => p.location
  }

  /** `profile[field] = value`. */
  function WithProfileField(p: ResumeProfile, field: ProfileField, value: string): (q: ResumeProfile)
    ensures ProfileValue(q, field) == value
    ensures forall g :: g != field ==> ProfileValue(q, g) == ProfileValue(p, g)
  {
    match field
    case Name => p.(name := value)
    case Email => p.(email := value)
    case PhoneNumber => p.(phone := value)
    case Url => p.(url := value)
    case Summary => p.(summary := value)
    case Location => p.(location := value)
  }

  /** `updateProfile`: only the named profile field changes. */
  function UpdateProfile(resume: Resume, field: ProfileField, value: string): (r: Resume)
    ensures ProfileValue(r.profile, field) == value
    ensures forall g :: g != field ==> ProfileValue(r.profile, g) == ProfileValue(resume.profile, g)
    ensures r.(profile := resume.profile) == resume
  {
    resume.(profile := WithProfileField(resume.profile, field, value))
  }

  /** A profile is determined by its six fields. */
  lemma ProfileFieldsDetermine(p: ResumeProfile, q: ResumeProfile)
    requires forall g :: ProfileValue(p, g) == ProfileValue(q, g)
    ensures p == q
  {
    assert ProfileValue(p, Name) == ProfileValue(q, Name);
    assert ProfileValue(p, Email) == ProfileValue(q, Email);
    assert ProfileValue(p, PhoneNumber) == ProfileValue(q, PhoneNumber);
    assert ProfileValue(p, Url) == ProfileValue(q, Url);
    assert ProfileValue(p, Summary) == ProfileValue(q, Summary);
    assert ProfileValue(p, Location) == ProfileValue(q, Location);
  }

  /** Writing back a field's own value changes nothing. */
  lemma UpdateProfileSameValue(resume: Resume, field: ProfileField)
    ensures UpdateProfile(resume, field, ProfileValue(resume.profile, field)) == resume
  {
    var r := UpdateProfile(resume, field, ProfileValue(resume.profile, field));
    ProfileFieldsDetermine(r.profile, resume.profile);
  }

  /** `copy.list[index][field] = value` on one list of the copy, with the
      field assignment given as `edit`: at an index with no entry the
      assignment throws a TypeError. */
  function UpdateEntry<T>(entries: seq<T>, index: int, edit: T -> T): (r: Result<seq<T>, string>)
    ensures r.Success? <==> 0 <= index < |entries|
    ensures r.Success? ==> |r.value| == |entries| && r.value[index] == edit(entries[index])
    ensures r.Success? ==> forall j :: 0 <= j < |entries| && j != index ==> r.value[j] == entries[j]
  {
    if 0 <= index < |entries| then Success(entries[index := edit(entries[index])])
    else Failure("TypeError: no entry at index")
  }

  /** The list a view shows for educations, work experiences and
      certifications: a single placeholder entry while the list is empty. */
  function Shown<T>(entries: seq<T>, placeholder: T): (r: seq<T>)
    ensures |r| > 0
  {
    if |entries| == 0 then [placeholder] else entries
  }

  /** As written, editing the placeholder that an empty list shows indexes
      the résumé's own, empty list and throws. */
  lemma PlaceholderEditFails<T>(placeholder: T, edit: T -> T)
    ensures 0 < |Shown([], placeholder)|
    ensures UpdateEntry([], 0, edit).Failure?
  {
  }

  /** The update as evidently intended: the edit applies to the list the
      view shows, so editing the placeholder stores it as the first entry. */
  function UpdateShownEntry<T>(entries: seq<T>, placeholder: T, index: int, edit: T -> T): Result<seq<T>, string>
  {
    UpdateEntry(Shown(entries, placeholder), index, edit)
  }

  /** Every entry the view shows can be edited; on a non-empty list the
      update is the one the source performs; on an empty list, editing the
      placeholder yields the edited placeholder. */
  lemma UpdateShownEntrySpec<T>(entries: seq<T>, placeholder: T, index: int, edit: T -> T)
    ensures 0 <= index < |Shown(entries, placeholder)| ==> UpdateShownEntry(entries, placeholder, index, edit).Success?
    ensures |entries| > 0 ==> UpdateShownEntry(entries, placeholder, index, edit) == UpdateEntry(entries, index, edit)
    ensures |entries| == 0 && index == 0 ==> UpdateShownEntry(entries, placeholder, index, edit) == Success([edit(placeholder)])
  {
    if |entries| == 0 && index == 0 {
      assert [placeholder][0 := edit(placeholder)] == [edit(placeholder)];
    }
  }

  /** `updateEducation`, on the shown list. */
  function UpdateEducation(resume: Resume, placeholder: ExtractEducation.ResumeEducation, index: int,
                           edit: ExtractEducation.ResumeEducation -> ExtractEducation.ResumeEducation): (r: Result<Resume, string>)
    ensures r.Success? <==> 0 <= index < |Shown(resume.educations, placeholder)|
    ensures r.Success? ==> r.value.(educations := resume.educations) == resume
  {
    match UpdateShownEntry(resume.educations, placeholder, index, edit)
    case Success(es) => Success(resume.(educations := es))
    case Failure(e) => Failure(e)
  }

  /** `updateWorkExperience`, on the shown list. */
  function UpdateWorkExperience(resume: Resume, placeholder: ResumeWorkExperience, index: int,
                                edit: ResumeWorkExperience -> ResumeWorkExperience): (r: Result<Resume, string>)
    ensures r.Success? <==> 0 <= index < |Shown(resume.workExperiences, placeholder)|
    ensures r.Success? ==> r.value.(workExperiences := resume.workExperiences) == resume
  {
    match UpdateShownEntry(resume.workExperiences, placeholder, index, edit)
    case Success(ws) => Success(resume.(workExperiences := ws))
    case Failure(e) => Failure(e)
  }

  /** `updateProject`: projects are shown only when there are some, so no
      placeholder is involved. */
  function UpdateProject(resume: Resume, index: int, edit: ResumeProject -> ResumeProject): (r: Result<Resume, string>)
    ensures r.Success? <==> 0 <= index < |resume.projects|
    ensures r.Success? ==> r.value.(projects := resume.projects) == resume
  {
    match UpdateEntry(resume.projects, index, edit)
    case Success(ps) => Success(resume.(projects := ps))
    case Failure(e) => Failure(e)
  }

  /** `updateCertification`, on the shown list. */
  function UpdateCertification(resume: Resume, placeholder: ExtractCertifications.ResumeCertification, index: int,
                               edit: ExtractCertifications.ResumeCertification -> ExtractCertifications.ResumeCertification)
    : (r: Result<Resume, string>)
    ensures r.Success? <==> 0 <= index < |Shown(resume.certifications, placeholder)|
    ensures r.Success? ==> r.value.(certifications := resume.certifications) == resume
  {
    match UpdateShownEntry(resume.certifications, placeholder, index, edit)
    case Success(cs) => Success(resume.(certifications := cs))
    case Failure(e) => Failure(e)
  }
}

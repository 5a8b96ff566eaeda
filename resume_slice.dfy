/** The résumé editor's store of `src/store/resumeSlice.ts`: a record of
    personal details, a summary and three lists, changed in place by the
    slice's reducers. */
module ResumeSlice {
  import opened Wrappers

  datatype Experience = Experience(company: string, position: string, startDate: string, endDate: string, description: string)

  datatype Education = Education(institution: string, degree: string, field: string, startDate: string, endDate: string)

  /** `website` is optional in the payload type: None stands for a payload
      that leaves it out. */
  datatype PersonalInfo = PersonalInfo(name: string, email: string, phone: string, location: string, website: Option<string>)

  /** A snapshot of the whole store, used to state what a reducer changes. */
  datatype ResumeState = ResumeState(
    personalInfo: PersonalInfo,
    summary: string,
    experience: seq<Experience>,
    education: seq<Education>,
    skills: seq<string>)

  const EmptyPersonalInfo := PersonalInfo("", "", "", "", Some(""))

  /** Where `Array.prototype.splice(start, …)` starts: a negative start
      counts from the end (and stops at 0), a start past the end is the
      end. */
  function SpliceStart(start: int, len: nat): (k: nat)
    ensures k <= len
    ensures 0 <= start <= len ==> k == start
    ensures start > len ==> k == len
    ensures start < 0 && 0 <= len + start ==> k == len + start
    ensures len + start < 0 ==> k == 0
  {
    if start < 0 then (if len + start < 0 then 0 else len + start)
    else if start > len then len
    else start
  }

  /** The list left by `xs.splice(start, 1)`. */
  function RemoveAt<T>(xs: seq<T>, start: int): (r: seq<T>)
    ensures |r| == if SpliceStart(start, |xs|) < |xs| then |xs| - 1 else |xs|
  {
    var k := SpliceStart(start, |xs|);
    if k < |xs| then xs[..k] + xs[k + 1..] else xs
  }

  /** At a valid index exactly that element goes: the ones before keep
      their places and the ones after move down by one. */
  lemma RemoveAtValid<T>(xs: seq<T>, i: int)
    requires 0 <= i < |xs|
    ensures |RemoveAt(xs, i)| == |xs| - 1
    ensures forall j :: 0 <= j < i ==> RemoveAt(xs, i)[j] == xs[j]
    ensures forall j :: i <= j < |xs| - 1 ==> RemoveAt(xs, i)[j] == xs[j + 1]
    ensures multiset(RemoveAt(xs, i)) == multiset(xs) - multiset{xs[i]}
  {
    assert xs == xs[..i] + [xs[i]] + xs[i + 1..];
  }

  /** A start at or past the end removes nothing. */
  lemma RemoveAtPastEnd<T>(xs: seq<T>, i: int)
    requires i >= |xs|
    ensures RemoveAt(xs, i) == xs
  {
  }

  /** A negative start -n removes the n-th element from the end. */
  lemma RemoveAtNegative<T>(xs: seq<T>, i: int)
    requires -|xs| <= i < 0
    ensures RemoveAt(xs, i) == RemoveAt(xs, |xs| + i)
  {
  }

  /** Pushing an element and then splicing at the last index, or at -1,
      gives back the list as it was. */
  lemma PushThenRemoveLast<T>(xs: seq<T>, x: T)
    ensures RemoveAt(xs + [x], |xs|) == xs
    ensures RemoveAt(xs + [x], -1) == xs
  {
    assert (xs + [x])[..|xs|] == xs;
  }

  /** The elements left by `xs[index] = x` for an index no further than
      the end: inside the list it replaces that element, at the end it
      appends (a hole-free growth by one), and a negative index only sets a
      non-index property, so the elements stay as they are. */
  function AssignAt<T>(xs: seq<T>, index: int, x: T): (r: seq<T>)
    requires index <= |xs|
    ensures 0 <= index < |xs| ==> |r| == |xs| && r[index] == x
    ensures 0 <= index < |xs| ==> forall j :: 0 <= j < |xs| && j != index ==> r[j] == xs[j]
    ensures index == |xs| ==> r == xs + [x]
    ensures index < 0 ==> r == xs
  {
    if index < 0 then xs
    else if index < |xs| then xs[index := x]
    else xs + [x]
  }

  /** Assigning at the length is the same as pushing, so it is undone by
      a splice at the last index. */
  lemma AssignAtEndThenRemove<T>(xs: seq<T>, x: T)
    ensures RemoveAt(AssignAt(xs, |xs|, x), |xs|) == xs
  {
    PushThenRemoveLast(xs, x);
  }

  class ResumeStore {
    var personalInfo: PersonalInfo
    var summary: string
    var experience: seq<Experience>
    var education: seq<Education>
    var skills: seq<string>

    function State(): ResumeState
      reads this
    {
      ResumeState(personalInfo, summary, experience, education, skills)
    }

    /** The slice's `initialState`. */
    constructor ()
      ensures State() == ResumeState(EmptyPersonalInfo, "", [], [], [])
    {
      personalInfo := EmptyPersonalInfo;
      summary := "";
      experience := [];
      education := [];
      skills := [];
    }

    method UpdatePersonalInfo(payload: PersonalInfo)
      modifies this
      ensures State() == old(State()).(personalInfo := payload)
    {
      personalInfo := payload;
    }

    method UpdateSummary(payload: string)
      modifies this
      ensures State() == old(State()).(summary := payload)
    {
      summary := payload;
    }

    method AddExperience(payload: Experience)
      modifies this
      ensures State() == old(State()).(experience := old(experience) + [payload])
    {
      experience := experience + [payload];
    }

    method UpdateExperience(index: int, payload: Experience)
      requires index <= |experience|
      modifies this
      ensures State() == old(State()).(experience := AssignAt(old(experience), index, payload))
    {
      if 0 <= index < |experience| {
        experience := experience[index := payload];
      } else if index == |experience| {
        experience := experience + [payload];
      }
    }

    method RemoveExperience(index: int)
      modifies this
      ensures State() == old(State()).(experience := RemoveAt(old(experience), index))
    {
      var k := SpliceStart(index, |experience|);
      if k < |experience| {
        experience := experience[..k] + experience[k + 1..];
      }
    }

    method AddEducation(payload: Education)
      modifies this
      ensures State() == old(State()).(education := old(education) + [payload])
    {
      education := education + [payload];
    }

    method UpdateEducation(index: int, payload: Education)
      requires index <= |education|
      modifies this
      ensures State() == old(State()).(education := AssignAt(old(education), index, payload))
    {
      if 0 <= index < |education| {
        education := education[index := payload];
      } else if index == |education| {
        education := education + [payload];
      }
    }

    method RemoveEducation(index: int)
      modifies this
      ensures State() == old(State()).(education := RemoveAt(old(education), index))
    {
      var k := SpliceStart(index, |education|);
      if k < |education| {
        education := education[..k] + education[k + 1..];
      }
    }

    method UpdateSkills(payload: seq<string>)
      modifies this
      ensures State() == old(State()).(skills := payload)
    {
      skills := payload;
    }
  }

  /** Adding an experience and then removing it at the last index leaves
      the store as it was. */
  method AddThenRemoveExperience(store: ResumeStore, e: Experience)
    modifies store
    ensures store.State() == old(store.State())
  {
    var n := |store.experience|;
    store.AddExperience(e);
    store.RemoveExperience(n);
    PushThenRemoveLast(old(store.experience), e);
  }
}

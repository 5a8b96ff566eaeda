# career-predict résumé core in Dafny

This project models the résumé post-processing of career-predict. That is
the logic that runs once a PDF has been read and grouped into sections,
plus the editing and job-search rules of the résumé pages. It proves what
that logic promises. Every core source file has its own module:

| module | file | models |
|---|---|---|
| `Strings` | strings.dfy | the JavaScript built-ins the code uses (`trim`, `toLowerCase`, `includes`, `split`, `join`, digit extraction, the insertion-ordered `Set`), with the facts the proofs need |
| `StableSort` | stable_sort.dfy | `Array.prototype.sort` as a stable insertion sort under a comparator: permutation, sortedness, stability |
| `ResumeLines` | resume_lines.dfy | a section as lines of text items; `.flat().map(t => t.text).join(" ")` |
| `FormatPhone` | format_phone.dfy | `formatPhoneNumber`, `validatePhoneNumber` |
| `ValidateEmail` | validate_email.dfy | `validateEmail` (the regular expression read as a predicate), `getEmailDomain` |
| `ParseResume` | parse_resume.dfy | `extractSkills` of `src/utils/parseResume.ts` (a loop) |
| `ResumeSlice` | resume_slice.dfy | the Redux slice as a class whose reducers update its fields in place |
| `ExtractEducation` | extract_education.dfy | `determineEducationType`, the school and degree fallbacks, the courses line, and the per-type selection, ordering, default names and cap of `extractEducation` |
| `ExtractProfile` | extract_profile.dfy | the match clean-ups, `sanitizeProfileFields` (a class method rewriting fields) and the summary precedence of `extractProfile` |
| `ExtractCertifications` | extract_certifications.dfy | header lines to name and date; descriptions to the first certification |
| `ExtractSkills` | extract_skills.dfy | featured-slot filling and the known-skills matching of `processSkillsFromDescriptions` |
| `ResumeEditing` | resume_editing.dfy | the saving, skill flattening, `updateSkills` regrouping and field-update helpers shared by `ParsedForm` and `ResumeTable` |
| `SkillInput` | skill_input.dfy | `addSkill`, suggestions and `removeSkill` of `SkillsForm`, and `addSkill`/`removeSkill` of `SkillsTableRow` |
| `JobKeywords` | job_keywords.dfy | `extractKeywordsFromResume` of `src/app/components/JobListingsModal.tsx` |
| `JobSearch` | job_search.dfy | the filter and the sort comparator of `src/components/JobListingsModal.tsx`, with `parseInt` |

Loops and in-place updates in the source are methods here. Each method is
proved equal to a specification function, and the properties are lemmas
about those functions. Helpers the source imports but does not show become
inputs: feature scores, the description-line index, the bullet-point
splitter, regular-expression matches, and the known-skills file.

## Model

| member | source | states |
|---|---|---|
| ResumeSlice.SpliceStart | src/store/resumeSlice.ts:63-65 | where `splice(start, 1)` acts: a start inside the list is kept, a start past the end clamps to the length, a negative start counts from the end and clamps at 0 |
| ResumeSlice.RemoveAt | src/store/resumeSlice.ts:63-65 | `splice(start, 1)` removes one element exactly when the clamped start is inside the list, otherwise the length is unchanged |
| ResumeSlice.RemoveAtValid | src/store/resumeSlice.ts:63-74 | removing at a valid index deletes exactly that element: length shrinks by one, earlier elements stay, later ones shift down by one, and the multiset loses just that element |
| ResumeSlice.RemoveAtPastEnd | src/store/resumeSlice.ts:63-65 | a remove index at or past the end leaves the list unchanged |
| ResumeSlice.RemoveAtNegative | src/store/resumeSlice.ts:63-65 | a negative index -k removes the element k from the end |
| ResumeSlice.PushThenRemoveLast | src/store/resumeSlice.ts:57-65 | pushing an entry and then removing at the last index (or at -1) restores the list |
| ResumeSlice.AssignAt | src/store/resumeSlice.ts:60-71 | `xs[index] = x` up to the end: inside the list only that element is replaced and the length is kept; at the length it appends; a negative index leaves the elements as they are |
| ResumeSlice.AssignAtEndThenRemove | src/store/resumeSlice.ts:60-65 | assigning at the length and then splicing at that index restores the list |
| ResumeSlice.ResumeStore.constructor | src/store/resumeSlice.ts:33-45 | the initial state: empty personal-info strings (website ""), empty summary, empty experience, education and skills |
| ResumeSlice.ResumeStore.UpdatePersonalInfo | src/store/resumeSlice.ts:51-53 | personal info becomes the payload; every other field is unchanged |
| ResumeSlice.ResumeStore.UpdateSummary | src/store/resumeSlice.ts:54-56 | the summary becomes the payload; every other field is unchanged |
| ResumeSlice.ResumeStore.AddExperience | src/store/resumeSlice.ts:57-59 | the payload is appended to experience; every other field is unchanged |
| ResumeSlice.ResumeStore.UpdateExperience | src/store/resumeSlice.ts:60-62 | experience becomes `AssignAt(experience, index, payload)`: replaced inside the list, appended at the length, unchanged for a negative index; every other field is unchanged |
| ResumeSlice.ResumeStore.RemoveExperience | src/store/resumeSlice.ts:63-65 | experience becomes `RemoveAt(experience, index)` (splice semantics for any integer); every other field is unchanged |
| ResumeSlice.ResumeStore.AddEducation | src/store/resumeSlice.ts:66-68 | the payload is appended to education; every other field is unchanged |
| ResumeSlice.ResumeStore.UpdateEducation | src/store/resumeSlice.ts:69-71 | education becomes `AssignAt(education, index, payload)`: replaced inside the list, appended at the length, unchanged for a negative index; every other field is unchanged |
| ResumeSlice.ResumeStore.RemoveEducation | src/store/resumeSlice.ts:72-74 | education becomes `RemoveAt(education, index)`; every other field is unchanged |
| ResumeSlice.ResumeStore.UpdateSkills | src/store/resumeSlice.ts:75-77 | skills become the payload; every other field is unchanged |
| ResumeSlice.AddThenRemoveExperience | src/store/resumeSlice.ts:57-65 | dispatching addExperience and then removeExperience at the last index leaves the whole state as it was |
| FormatPhone.DigitsOfLayout | src/utils/formatPhone.ts:15 | the digits of "(ddd) ddd-dddd" built from ten digits are those ten digits |
| FormatPhone.FormatTenDigits | src/utils/formatPhone.ts:9-16 | with exactly ten digits the result is the 14-character "(" d0..d2 ") " d3..d5 "-" d6..d9 |
| FormatPhone.FormatOtherCounts | src/utils/formatPhone.ts:12-18 | with any other digit count the input is returned unchanged |
| FormatPhone.FormatKeepsDigits | src/utils/formatPhone.ts:6-23 | formatting preserves the digit sequence |
| FormatPhone.ValidateAfterFormat | src/utils/formatPhone.ts:6-33 | `validatePhoneNumber(formatPhoneNumber(s)) == validatePhoneNumber(s)` |
| FormatPhone.FormatIdempotent | src/utils/formatPhone.ts:6-23 | formatting twice equals formatting once |
| ValidateEmail.ValidImpliesShape | src/utils/validateEmail.ts:6-9 | a string matching `^[^\s@]+@[^\s@]+\.[^\s@]+$` has no white space, splits on '@' into exactly two parts, a non-empty local part, and a domain with a '.' neither first nor last |
| ValidateEmail.ShapeImpliesValid | src/utils/validateEmail.ts:6-9 | the converse: every string of that shape matches the pattern |
| ValidateEmail.ValidateEmailIff | src/utils/validateEmail.ts:6-9 | `validateEmail` holds iff the shape above holds |
| ValidateEmail.ValidEmailHasOneAt | src/utils/validateEmail.ts:7 | a valid e-mail has exactly one '@' |
| ValidateEmail.ValidEmailDomain | src/utils/validateEmail.ts:7-21 | for a valid e-mail `getEmailDomain` returns the whole text after the '@', which is non-empty, '@'-free and contains '.' |
| ValidateEmail.NoAtNoDomain | src/utils/validateEmail.ts:14-21 | without '@' there is no second part (`undefined`); the catch branch is never reached |
| ParseResume.ExtractSkills | src/utils/parseResume.ts:6-25 | the loop returns `MatchedSkills(text, skillsList)`: the entries whose lower-case form occurs in the lower-cased text, in list order, with their own casing |
| ParseResume.MatchedSkillsAppend | src/utils/parseResume.ts:14-19 | matching distributes over concatenation of the skills list, so the result is a subsequence in list order |
| ParseResume.MatchedSkillsCount | src/utils/parseResume.ts:14-19 | each skill appears as often as in the list when it is mentioned and not at all otherwise (duplicates repeat) |
| ParseResume.MatchedSkillsShorter | src/utils/parseResume.ts:14-19 | the output is never longer than the skills list |
| ParseResume.MatchedSkillsMember | src/utils/parseResume.ts:14-19 | a skill is returned iff it is in the list and its lower-case form occurs in the lower-cased text |
| ParseResume.EmptySkillAlwaysMatched | src/utils/parseResume.ts:16 | an empty skill in the list is always returned |
| ExtractEducation.MaxScore | src/app/lib/parse-resume-from-pdf/extract-resume-from-sections/extract-education.ts:121-135 | the running maximum that starts at 0: it is non-negative, bounds every score, and is 0 or one of the scores |
| ExtractEducation.DetermineEducationType | src/app/lib/parse-resume-from-pdf/extract-resume-from-sections/extract-education.ts:115-146 | the three forEach loops and the tie-breaking chain compute `TypeOfScores` of the three score lists |
| ExtractEducation.OtherIffNoPositiveScore | src/app/lib/parse-resume-from-pdf/extract-resume-from-sections/extract-education.ts:121-139 | the type is Other exactly when no score of any of the three feature sets is positive |
| ExtractEducation.TypePriority | src/app/lib/parse-resume-from-pdf/extract-resume-from-sections/extract-education.ts:137-145 | University iff its maximum is positive and not below the others; 12th iff its maximum is positive, above University's and not below 10th's; 10th iff positive and strictly above both |
| ExtractEducation.FinalSchool | src/app/lib/parse-resume-from-pdf/extract-resume-from-sections/extract-education.ts:183-202 | a detected school is kept; an undetected one becomes the college match for University, the HSC match for 12th and the SSC match for 10th, and stays empty when that match fails or for Other (the regex matches are inputs) |
| ExtractEducation.FirstDegreeFrom | src/app/lib/parse-resume-from-pdf/extract-resume-from-sections/extract-education.ts:209-229 | the fallback chain yields "Bachelor's Degree" or one of the fixed degree names |
| ExtractEducation.FirstDegreeFromSpec | src/app/lib/parse-resume-from-pdf/extract-resume-from-sections/extract-education.ts:209-229 | from position i the chain yields the first fixed name whose pattern matches, else "Bachelor's Degree" |
| ExtractEducation.FallbackDegreeSpec | src/app/lib/parse-resume-from-pdf/extract-resume-from-sections/extract-education.ts:209-229 | a University entry without degree gets the first matching fixed degree name, or "Bachelor's Degree" when no pattern matches |
| ExtractEducation.FinalDegreeSpec | src/app/lib/parse-resume-from-pdf/extract-resume-from-sections/extract-education.ts:204-234 | a detected degree is kept; a University entry without one gets `FallbackDegree`, the name of the first matching degree pattern or "Bachelor's Degree"; 12th and 10th default to "Higher Secondary Education" and "Secondary Education"; so none of the three is left without a degree, while Other keeps an empty degree |
| ExtractEducation.EducationsOf | src/app/lib/parse-resume-from-pdf/extract-resume-from-sections/extract-education.ts:154-272 | one entry per subsection, in subsection order |
| ExtractEducation.BuildEducation | src/app/lib/parse-resume-from-pdf/extract-resume-from-sections/extract-education.ts:155-264 | one loop body builds the entry of its subsection (school, degree, GPA, date, descriptions, type) |
| ExtractEducation.BuildEducations | src/app/lib/parse-resume-from-pdf/extract-resume-from-sections/extract-education.ts:149-272 | the loop over subsections pushes exactly `EducationsOf(subs)` |
| ExtractEducation.FirstUniversity | src/app/lib/parse-resume-from-pdf/extract-resume-from-sections/extract-education.ts:279 | `findIndex`: the index of the first University entry, or none when there is none |
| ExtractEducation.WithCoursesSpec | src/app/lib/parse-resume-from-pdf/extract-resume-from-sections/extract-education.ts:274-290 | with entries and course lines, exactly one "Courses: …" description is appended, to the first University entry or else to entry 0; every other entry and every type is unchanged; otherwise nothing changes |
| ExtractEducation.OfType | src/app/lib/parse-resume-from-pdf/extract-resume-from-sections/extract-education.ts:297-307 | a bucket is no longer than the list and holds only entries of its type, taken from the list |
| ExtractEducation.OfTypeIsFilter | src/app/lib/parse-resume-from-pdf/extract-resume-from-sections/extract-education.ts:297-307 | the bucket the forEach builds by pushing is the filter of the list by type |
| ExtractEducation.OfTypeSpec | src/app/lib/parse-resume-from-pdf/extract-resume-from-sections/extract-education.ts:297-307 | a bucket is a subsequence of the list holding every entry of its type and nothing else, and it is empty iff no entry has that type |
| ExtractEducation.GroupByType | src/app/lib/parse-resume-from-pdf/extract-resume-from-sections/extract-education.ts:297-307 | the forEach fills the four buckets with the entries of each type, in original order |
| ExtractEducation.Pick | src/app/lib/parse-resume-from-pdf/extract-resume-from-sections/extract-education.ts:314-366 | a bucket contributes at most one entry, and exactly one when it is non-empty |
| ExtractEducation.MeritLeTotal | src/app/lib/parse-resume-from-pdf/extract-resume-from-sections/extract-education.ts:316-362 | the bucket comparators are total preorders, so the stable sort's head is well defined |
| ExtractEducation.PickIsBest | src/app/lib/parse-resume-from-pdf/extract-resume-from-sections/extract-education.ts:314-366 | the kept entry is the earliest of highest merit: non-empty school first, then (University only) a degree other than "Bachelor's Degree", then a non-empty GPA |
| ExtractEducation.PicksTypes | src/app/lib/parse-resume-from-pdf/extract-resume-from-sections/extract-education.ts:313-366 | at most three typed entries are picked, none of type Other, all taken from the list |
| ExtractEducation.PicksLayered | src/app/lib/parse-resume-from-pdf/extract-resume-from-sections/extract-education.ts:313-366 | the picks are ordered University, 12th, 10th with at most one of each |
| ExtractEducation.PicksPresence | src/app/lib/parse-resume-from-pdf/extract-resume-from-sections/extract-education.ts:313-366 | a type other than Other is picked iff some entry of the input list has that type |
| ExtractEducation.WithDefaultDegreesKeepsType | src/app/lib/parse-resume-from-pdf/extract-resume-from-sections/extract-education.ts:379-387 | the default-name pass keeps every type, leaves Other entries untouched and leaves no typed entry with an empty degree |
| ExtractEducation.FinalizeIsNamedSelection | src/app/lib/parse-resume-from-pdf/extract-resume-from-sections/extract-education.ts:368-390 | the selection is the picks followed by the Other entries that fit in three, is layered, and the result is that selection with default names |
| ExtractEducation.FinalizeTyped | src/app/lib/parse-resume-from-pdf/extract-resume-from-sections/extract-education.ts:313-390 | the result has at most three entries; its first entries are the picks with default names, each typed and with a non-empty degree |
| ExtractEducation.FinalizeOthers | src/app/lib/parse-resume-from-pdf/extract-resume-from-sections/extract-education.ts:368-390 | after the picks come the first Other entries in their original order, as many as fit in three |
| ExtractEducation.FinalizeLayered | src/app/lib/parse-resume-from-pdf/extract-resume-from-sections/extract-education.ts:293-376 | the final list is ordered University < 12th < 10th < Other, with at most one entry of each typed kind |
| ExtractEducation.FinalizePresence | src/app/lib/parse-resume-from-pdf/extract-resume-from-sections/extract-education.ts:313-376 | the final list contains a University (12th, 10th) entry iff some entry of the input list has that type |
| ExtractEducation.FinalizeSpec | src/app/lib/parse-resume-from-pdf/extract-resume-from-sections/extract-education.ts:292-390 | all of the above together: size at most 3, picks first with default names, then fitting Other entries, layered order, and presence of each typed kind |
| ExtractEducation.NameDefaults | src/app/lib/parse-resume-from-pdf/extract-resume-from-sections/extract-education.ts:379-387 | the forEach rewrites each entry's degree exactly as `WithDefaultDegrees` |
| ExtractEducation.SelectAndOrder | src/app/lib/parse-resume-from-pdf/extract-resume-from-sections/extract-education.ts:292-390 | the grouping, picking, filling, sorting, naming and slicing steps compute `Finalize` |
| ExtractEducation.ExtractEducation | src/app/lib/parse-resume-from-pdf/extract-resume-from-sections/extract-education.ts:148-396 | the whole post-processing returns `ExtractedEducations`: build, attach courses, finalize |
| ExtractEducation.BuiltEntriesHaveDegrees | src/app/lib/parse-resume-from-pdf/extract-resume-from-sections/extract-education.ts:204-387 | entries built from subsections already carry their default degree names, so the final naming pass changes nothing on them |
| ExtractProfile.StripLeading | src/app/lib/parse-resume-from-pdf/extract-resume-from-sections/extract-profile.ts:181-186 | `replace(/^[^…]+/, '')`: the result is a suffix of the input that is empty or starts with an allowed character, and every removed character is disallowed |
| ExtractProfile.StripLeadingIdempotent | src/app/lib/parse-resume-from-pdf/extract-resume-from-sections/extract-profile.ts:181-186 | stripping a leading run twice equals stripping it once |
| ExtractProfile.CleanMatchesSpec | src/app/lib/parse-resume-from-pdf/extract-resume-from-sections/extract-profile.ts:27-75 | a cleaned e-mail or URL match is a suffix of the match that is empty or starts with a letter or digit; the HTTP fallback's cleaned match starts with 'h' and only non-'h' characters were dropped |
| ExtractProfile.KeepPhoneChars | src/app/lib/parse-resume-from-pdf/extract-resume-from-sections/extract-profile.ts:196 | the kept text is no longer than the input and consists only of digits, '+', '(', ')', '-', '.' and white space |
| ExtractProfile.KeepPhoneCharsOfKept | src/app/lib/parse-resume-from-pdf/extract-resume-from-sections/extract-profile.ts:196 | keeping phone characters of a string made only of them changes nothing |
| ExtractProfile.KeepPhoneCharsDigits | src/app/lib/parse-resume-from-pdf/extract-resume-from-sections/extract-profile.ts:196-199 | keeping phone characters preserves the digit sequence |
| ExtractProfile.TenDigitLayout | src/app/lib/parse-resume-from-pdf/extract-resume-from-sections/extract-profile.ts:207-209 | the digits of "ddddd ddddd" are the ten digits |
| ExtractProfile.LongLayout | src/app/lib/parse-resume-from-pdf/extract-resume-from-sections/extract-profile.ts:210-215 | the digits of "+cc ddddd ddddd" are the original digits |
| ExtractProfile.GroupedPhoneLayout | src/app/lib/parse-resume-from-pdf/extract-resume-from-sections/extract-profile.ts:205-215 | a grouped phone consists of phone characters only and has the original digits |
| ExtractProfile.SanitizedPhoneCases | src/app/lib/parse-resume-from-pdf/extract-resume-from-sections/extract-profile.ts:194-219 | with exactly 10 digits the phone is the first five digits, a space and the last five (11 characters); with more, "+" then the leading digits, a space, the next five, a space and the last five; with fewer, the input with only phone characters kept, in order |
| ExtractProfile.SanitizedPhoneDigits | src/app/lib/parse-resume-from-pdf/extract-resume-from-sections/extract-profile.ts:194-219 | phone sanitising preserves the digit sequence |
| ExtractProfile.SanitizedPhoneIdempotent | src/app/lib/parse-resume-from-pdf/extract-resume-from-sections/extract-profile.ts:194-219 | phone sanitising is idempotent |
| ExtractProfile.SanitizedEmailSpec | src/app/lib/parse-resume-from-pdf/extract-resume-from-sections/extract-profile.ts:180-182 | a sanitised e-mail is empty or starts with a letter or digit, is a suffix of the input, and sanitising is idempotent |
| ExtractProfile.SanitizedEmailOfMatch | src/app/lib/parse-resume-from-pdf/extract-resume-from-sections/extract-profile.ts:27-182 | sanitising an e-mail already cleaned by `matchEmail` changes nothing |
| ExtractProfile.PrefixedHasScheme | src/app/lib/parse-resume-from-pdf/extract-resume-from-sections/extract-profile.ts:188-189 | prefixing "https://" always yields a recognised scheme |
| ExtractProfile.SchemeStartsAllowed | src/app/lib/parse-resume-from-pdf/extract-resume-from-sections/extract-profile.ts:186-188 | a text with a recognised scheme starts with a character the URL strip keeps |
| ExtractProfile.SanitizedUrlSpec | src/app/lib/parse-resume-from-pdf/extract-resume-from-sections/extract-profile.ts:185-191 | an empty URL stays empty; otherwise the leading run of characters other than letters, digits and ':' goes and "https://" is prepended unless the rest starts with "http://", "https://" or "www.", so the result always does; sanitising is idempotent |
| ExtractProfile.Profile.constructor | src/app/lib/parse-resume-from-pdf/extract-resume-from-sections/extract-profile.ts:267-275 | the profile record holds the six given fields |
| ExtractProfile.Profile.SanitizeProfileFields | src/app/lib/parse-resume-from-pdf/extract-resume-from-sections/extract-profile.ts:171-222 | e-mail, URL and phone become their sanitised forms (empty ones stay empty); name, location and summary are unchanged |
| ExtractProfile.RegroupPhone | src/app/lib/parse-resume-from-pdf/extract-resume-from-sections/extract-profile.ts:194-218 | the phone branch for a non-empty phone computes `SanitizedPhone` |
| ExtractProfile.ChosenSummarySpec | src/app/lib/parse-resume-from-pdf/extract-resume-from-sections/extract-profile.ts:255-274 | the summary is the summary-section text if non-empty, else the objective-section text, else the scored summary; it is empty only when all three are |
| ExtractProfile.ExtractProfile | src/app/lib/parse-resume-from-pdf/extract-resume-from-sections/extract-profile.ts:224-281 | the returned profile keeps the scored name and location, has sanitised e-mail, URL and phone, and the chosen summary |
| ExtractCertifications.DropTrailing | src/app/lib/parse-resume-from-pdf/extract-resume-from-sections/extract-certifications.ts:48 | `replace(/[-–—\|,]+$/g, '')`: the result is a prefix of the input that does not end with a separator, and only separators were removed |
| ExtractCertifications.HeaderCertifications | src/app/lib/parse-resume-from-pdf/extract-resume-from-sections/extract-certifications.ts:29-57 | at most one certification per header line, each with no descriptions |
| ExtractCertifications.HeaderLoop | src/app/lib/parse-resume-from-pdf/extract-resume-from-sections/extract-certifications.ts:29-57 | the forEach over the header lines pushes exactly `HeaderCertifications` |
| ExtractCertifications.ExtractCertifications | src/app/lib/parse-resume-from-pdf/extract-resume-from-sections/extract-certifications.ts:12-72 | the method returns `ExtractedCertifications` of the section lines, the description index, the date matcher and the bullet helper |
| ExtractCertifications.NoCertificationsWithoutHeaders | src/app/lib/parse-resume-from-pdf/extract-resume-from-sections/extract-certifications.ts:17-61 | an empty section, or a description index that is absent or 0, yields no certifications (and so no descriptions) |
| ExtractCertifications.HeaderCertificationsAppend | src/app/lib/parse-resume-from-pdf/extract-resume-from-sections/extract-certifications.ts:29-57 | header lines contribute independently and in line order |
| ExtractCertifications.HeaderCertificationsCount | src/app/lib/parse-resume-from-pdf/extract-resume-from-sections/extract-certifications.ts:30-55 | exactly one certification per header line whose space-joined, trimmed text is non-empty |
| ExtractCertifications.UndatedCertification | src/app/lib/parse-resume-from-pdf/extract-resume-from-sections/extract-certifications.ts:34-39 | without a date match the name is the whole line text and the date is "" |
| ExtractCertifications.DatedCertification | src/app/lib/parse-resume-from-pdf/extract-resume-from-sections/extract-certifications.ts:40-49 | with a date match the date is the matched text and the name is a trimmed piece of the line with the first occurrence of the date removed |
| ExtractCertifications.CleanedNameInside | src/app/lib/parse-resume-from-pdf/extract-resume-from-sections/extract-certifications.ts:45-48 | trimming, dropping trailing separators and trimming again leaves a trimmed piece of the original text |
| ExtractCertifications.ExtractedCertificationsSpec | src/app/lib/parse-resume-from-pdf/extract-resume-from-sections/extract-certifications.ts:17-72 | one certification per non-blank header line, at most as many as header lines and as the description index; only the first can carry descriptions, and it carries the bullet points of the lines from the index on when there are any |
| ExtractSkills.SliceEnd | src/app/lib/parse-resume-from-pdf/extract-resume-from-sections/extract-skills.ts:17-22 | the clamped end of `slice(0, idx)`: the index itself when inside the list, never past its end |
| ExtractSkills.FeaturedTexts | src/app/lib/parse-resume-from-pdf/extract-resume-from-sections/extract-skills.ts:23-26 | at most six featured texts are taken |
| ExtractSkills.ExtractSkills | src/app/lib/parse-resume-from-pdf/extract-resume-from-sections/extract-skills.ts:14-38 | the method, with its slot-filling loop, returns `ExtractedSkills` (a failure where `featuredSkills[i]` would be undefined) |
| ExtractSkills.NoIndexKeepsFeatured | src/app/lib/parse-resume-from-pdf/extract-resume-from-sections/extract-skills.ts:16-21 | when no bullet line is found the index is 0: every section line goes to the bullet helper and the featured skills keep their initial value |
| ExtractSkills.FeaturedTextsSpec | src/app/lib/parse-resume-from-pdf/extract-resume-from-sections/extract-skills.ts:23-26 | the featured texts are the first min(6, count) non-blank header items, in order |
| ExtractSkills.FeaturedSlots | src/app/lib/parse-resume-from-pdf/extract-resume-from-sections/extract-skills.ts:20-30 | the extraction succeeds iff there are enough initial slots; then slot i gets the i-th featured text for i below their count, every other slot is untouched, and every rating is kept |
| ExtractSkills.DescriptionsAfterIndex | src/app/lib/parse-resume-from-pdf/extract-resume-from-sections/extract-skills.ts:16-18 | the descriptions depend only on the lines at or after the description index |
| ExtractSkills.KnownSkills | src/app/lib/parse-resume-from-pdf/extract-resume-from-sections/extract-skills.ts:53-54 | every known skill is non-empty and trimmed |
| ExtractSkills.KnownSkillsSkipsHeader | src/app/lib/parse-resume-from-pdf/extract-resume-from-sections/extract-skills.ts:53-54 | the first CSV line is skipped; the others are trimmed and blanks dropped (also SkillsForm.tsx:31-32) |
| ExtractSkills.FoundSkills | src/app/lib/parse-resume-from-pdf/extract-resume-from-sections/extract-skills.ts:63-87 | no more matches than known skills |
| ExtractSkills.FoundSkillsMember | src/app/lib/parse-resume-from-pdf/extract-resume-from-sections/extract-skills.ts:63-82 | a skill matches iff it is known, longer than 2 and its lower-case form occurs in the lower-cased, space-joined descriptions (the word-boundary test is subsumed by `includes`) |
| ExtractSkills.StrLeTotalPreorder | src/app/lib/parse-resume-from-pdf/extract-resume-from-sections/extract-skills.ts:90 | the default `sort()` order on strings is a total preorder |
| ExtractSkills.StrLeAntisymmetric | src/app/lib/parse-resume-from-pdf/extract-resume-from-sections/extract-skills.ts:90 | two strings ordered both ways are equal |
| ExtractSkills.ProcessSkillsFromDescriptions | src/app/lib/parse-resume-from-pdf/extract-resume-from-sections/extract-skills.ts:44-95 | the method returns `ProcessedSkills`: [] when the file cannot be read, else the sorted set of matched skills |
| ExtractSkills.CollectFound | src/app/lib/parse-resume-from-pdf/extract-resume-from-sections/extract-skills.ts:57-87 | the Set of matches is the duplicate-free list of matching known skills in first-insertion order |
| ExtractSkills.NoFileNoSkills | src/app/lib/parse-resume-from-pdf/extract-resume-from-sections/extract-skills.ts:91-94 | a failed fetch returns [] |
| ExtractSkills.ProcessedSkillsMember | src/app/lib/parse-resume-from-pdf/extract-resume-from-sections/extract-skills.ts:53-90 | a skill is returned iff it is a known skill (with the list's own casing) that matches |
| ExtractSkills.ProcessedSkillsLong | src/app/lib/parse-resume-from-pdf/extract-resume-from-sections/extract-skills.ts:65 | no returned skill has length 2 or less |
| ExtractSkills.StrictlyAscending | src/app/lib/parse-resume-from-pdf/extract-resume-from-sections/extract-skills.ts:89-90 | a sorted permutation of a duplicate-free list is strictly ascending |
| ExtractSkills.ProcessedSkillsAscending | src/app/lib/parse-resume-from-pdf/extract-resume-from-sections/extract-skills.ts:57-90 | the returned list is strictly ascending, so duplicate-free |
| ResumeEditing.SavedTextCases | src/app/resume-parser/ParsedForm.tsx:41-65 | a saved text field is the trimmed input, except that for the Phone label exactly 10 digits give "ddddd ddddd" and more than 10 give "+cc ddddd ddddd" (also ResumeTable.tsx:53-76) |
| ResumeEditing.SavedTextStable | src/app/resume-parser/ParsedForm.tsx:41-65 | saving a phone keeps the digit sequence of the trimmed input, and saving an already saved value changes nothing (also ResumeTable.tsx:53-76) |
| ResumeEditing.TrimmedPieces | src/app/resume-parser/ParsedForm.tsx:146-153 | every piece kept from a split, for saved list lines and for comma-separated skills alike, is non-empty and trimmed (also ParsedForm.tsx:439-458, ResumeTable.tsx:263-282) |
| ResumeEditing.SavedLinesRoundTrip | src/app/resume-parser/ParsedForm.tsx:132-153 | items that are non-empty, trimmed and free of newlines survive joining with newlines and saving unchanged |
| ResumeEditing.KeptLinesSpec | src/app/resume-parser/ResumeTable.tsx:78-80 | an array save keeps exactly the lines whose trimmed text is non-empty, untrimmed and in order; it never grows and is idempotent |
| ResumeEditing.CombinedSkills | src/app/resume-parser/ParsedForm.tsx:462-465 | the displayed skill list has no duplicates (also ResumeTable.tsx:286-289) |
| ResumeEditing.CombinedSkillsSpec | src/app/resume-parser/ParsedForm.tsx:432-465 | the displayed skills are the deduplicated featured pieces followed by the deduplicated description pieces not already among them, and a skill is shown iff it is a featured or a description piece (also ResumeTable.tsx:256-289) |
| ResumeEditing.CategoryLineSkills | src/app/resume-parser/ParsedForm.tsx:432-545 | a line "cat: a, b" written by `updateSkills` has one colon and flattens back to exactly its items (also ResumeTable.tsx:256-371) |
| ResumeEditing.CategoryName | src/app/resume-parser/ParsedForm.tsx:507 | a category name holds no ':' (also ResumeTable.tsx:333) |
| ResumeEditing.ColonNames | src/app/resume-parser/ParsedForm.tsx:505-511 | the names read from the descriptions with a colon hold no ':' (also ResumeTable.tsx:331-337) |
| ResumeEditing.CategoryKeys | src/app/resume-parser/ParsedForm.tsx:502-516 | the Map's keys are duplicate-free, colon-free and include "Other" (also ResumeTable.tsx:328-342) |
| ResumeEditing.OtherKeyLast | src/app/resume-parser/ParsedForm.tsx:505-516 | "Other" comes last unless a description already names it, in which case the keys are the category names in first-occurrence order (also ResumeTable.tsx:331-342) |
| ResumeEditing.FindDescription | src/app/resume-parser/ParsedForm.tsx:524-526 | `find` succeeds iff some description starts with "cat:" and contains the skill case-insensitively (also ResumeTable.tsx:350-352) |
| ResumeEditing.CategoryOf | src/app/resume-parser/ParsedForm.tsx:519-539 | a skill goes to one of the keys or to "Other" (also ResumeTable.tsx:345-365) |
| ResumeEditing.CategoryOfFirst | src/app/resume-parser/ParsedForm.tsx:523-532 | the chosen category is the first key, in Map order, with a matching description (also ResumeTable.tsx:349-358) |
| ResumeEditing.CategoryOfNone | src/app/resume-parser/ParsedForm.tsx:535-538 | a skill with no matching description goes to "Other" (also ResumeTable.tsx:361-364) |
| ResumeEditing.Members | src/app/resume-parser/ParsedForm.tsx:519-539 | a category's skills are taken from the values and are no more than them (also ResumeTable.tsx:345-365) |
| ResumeEditing.UpdateSkillDescriptions | src/app/resume-parser/ParsedForm.tsx:497-554 | the method computes `UpdatedDescriptions`: with categories, the regrouped "cat: a, b" lines; without, the values (also ResumeTable.tsx:323-380) |
| ResumeEditing.CollectCategories | src/app/resume-parser/ParsedForm.tsx:502-516 | the forEach and the "Other" check build exactly `CategoryKeys` (also ResumeTable.tsx:328-342) |
| ResumeEditing.AssignSkills | src/app/resume-parser/ParsedForm.tsx:519-539 | after the forEach every key maps to exactly the values assigned to it, in value order (also ResumeTable.tsx:345-365) |
| ResumeEditing.PlaceSkill | src/app/resume-parser/ParsedForm.tsx:520-538 | one skill is appended to the list of its category (the first match, else "Other") and nothing else changes (also ResumeTable.tsx:346-364) |
| ResumeEditing.NoCategoriesVerbatim | src/app/resume-parser/ParsedForm.tsx:498-554 | when no original description contains ':', the new descriptions are the values verbatim (also ResumeTable.tsx:324-380) |
| ResumeEditing.GroupsPartition | src/app/resume-parser/ParsedForm.tsx:519-539 | the groups together hold every value exactly once (also ResumeTable.tsx:345-365) |
| ResumeEditing.FlatRegrouped | src/app/resume-parser/ParsedForm.tsx:432-547 | flattening the regrouped lines gives the groups' skills in key order (also ResumeTable.tsx:256-373) |
| ResumeEditing.RegroupRoundTrip | src/app/resume-parser/ParsedForm.tsx:432-554 | when each value is non-empty, trimmed and free of ',' and ':', flattening the new descriptions gives back exactly the edited values, as a multiset (also ResumeTable.tsx:256-380) |
| ResumeEditing.FlatOfPlain | src/app/resume-parser/ParsedForm.tsx:432-443 | descriptions without a colon flatten to themselves (also ResumeTable.tsx:256-267) |
| ResumeEditing.PlainDescriptionSkills | src/app/resume-parser/ParsedForm.tsx:442 | a description without a colon is one skill (also ResumeTable.tsx:266) |
| ResumeEditing.KeptFeatured | src/app/resume-parser/ParsedForm.tsx:557-559 | the kept featured skills are no more than before (also ResumeTable.tsx:383-385) |
| ResumeEditing.KeptFeaturedMember | src/app/resume-parser/ParsedForm.tsx:557-559 | a featured skill is kept iff its text contains some new value (also ResumeTable.tsx:383-385) |
| ResumeEditing.KeptFeaturedEdges | src/app/resume-parser/ParsedForm.tsx:557-559 | with no values every featured skill goes; with an empty value every one stays (also ResumeTable.tsx:383-385) |
| ResumeEditing.UpdateSkills | src/app/resume-parser/ParsedForm.tsx:492-562 | the edited skills get the updated descriptions and the kept featured skills (also ResumeTable.tsx:318-388) |
| ResumeEditing.FilterFeatured | src/app/resume-parser/ParsedForm.tsx:557-559 | the filter computes `KeptFeatured` (also ResumeTable.tsx:383-385) |
| ResumeEditing.WithProfileField | src/app/resume-parser/ParsedForm.tsx:468-472 | the edited field takes the value and every other profile field is unchanged (also ResumeTable.tsx:294-298) |
| ResumeEditing.UpdateProfile | src/app/resume-parser/ParsedForm.tsx:468-472 | `updateProfile` changes only the one field of the profile and nothing else in the résumé (also ResumeTable.tsx:294-298) |
| ResumeEditing.UpdateProfileSameValue | src/app/resume-parser/ParsedForm.tsx:468-472 | writing a field's own value back leaves the résumé unchanged (also ResumeTable.tsx:294-298) |
| ResumeEditing.UpdateEntry | src/app/resume-parser/ParsedForm.tsx:474-568 | editing an entry succeeds iff the index is in range (otherwise `educations[index][field]` throws a TypeError); only that entry changes (also ResumeTable.tsx:300-394) |
| ResumeEditing.Shown | src/app/resume-parser/ParsedForm.tsx:413-426 | the list shown is never empty: an empty list is shown as one placeholder (also ResumeTable.tsx:237-250) |
| ResumeEditing.PlaceholderEditFails | src/app/resume-parser/ParsedForm.tsx:413-478 | the placeholder of an empty list is shown, yet editing it at index 0 fails (also ResumeTable.tsx:237-304) |
| ResumeEditing.UpdateShownEntrySpec | src/app/resume-parser/ParsedForm.tsx:413-490 | the corrected edit works at every shown index: it edits the list itself when non-empty, and turns an edited placeholder into a one-entry list (also ResumeTable.tsx:237-316) |
| ResumeEditing.UpdateEducation | src/app/resume-parser/ParsedForm.tsx:474-478 | the corrected education edit succeeds iff the index is shown, and changes nothing but the educations (also ResumeTable.tsx:300-304) |
| ResumeEditing.UpdateWorkExperience | src/app/resume-parser/ParsedForm.tsx:480-484 | the corrected work-experience edit succeeds iff the index is shown, and changes nothing but the work experiences (also ResumeTable.tsx:306-310) |
| ResumeEditing.UpdateProject | src/app/resume-parser/ParsedForm.tsx:486-490 | a project edit succeeds iff the index is in range (projects have no placeholder), and changes nothing but the projects (also ResumeTable.tsx:312-316) |
| ResumeEditing.UpdateCertification | src/app/resume-parser/ParsedForm.tsx:564-568 | the corrected certification edit succeeds iff the index is shown, and changes nothing but the certifications (also ResumeTable.tsx:390-394) |
| SkillInput.InputSkills | src/app/resume-parser/SkillsForm.tsx:89-105 | every skill read from the input is non-empty and trimmed (also SkillsTableRow.tsx:37-49) |
| SkillInput.WholeSkill | src/app/resume-parser/SkillsForm.tsx:98-101 | an input whose ':' count is not one is taken whole, trimmed, as the single skill, which is never empty (also SkillsTableRow.tsx:42-45) |
| SkillInput.CategoryInput | src/app/resume-parser/SkillsForm.tsx:93-97 | typing a "cat: a, b" line adds exactly its items (also SkillsTableRow.tsx:37-41) |
| SkillInput.ListInput | src/app/resume-parser/SkillsForm.tsx:102-105 | typing "a,b,c" (no colon) adds exactly a, b and c (also SkillsTableRow.tsx:46-49) |
| SkillInput.MatchedSkill | src/app/resume-parser/SkillsForm.tsx:119-121 | `find` returns an available skill equal to the item ignoring case, and returns none only when no available skill is |
| SkillInput.FinalSkill | src/app/resume-parser/SkillsForm.tsx:119-124 | the pushed skill equals the item ignoring case and is the item itself or an available skill (its casing) |
| SkillInput.AddedSkills | src/app/resume-parser/SkillsForm.tsx:110-128 | as written: no more skills are added than items |
| SkillInput.AddedSkillsMember | src/app/resume-parser/SkillsForm.tsx:110-128 | as written: a skill is appended iff some item is not among the skills selected before the call, ignoring case, and the skill is that item in the available list's casing |
| SkillInput.AddedSkillsNone | src/app/resume-parser/SkillsForm.tsx:110-128 | as written: nothing is appended iff every item is among the skills selected before the call, ignoring case |
| SkillInput.RepeatedItemAddedTwice | src/app/resume-parser/SkillsForm.tsx:110-128 | as written, "Go, go" against an empty list adds both "Go" and "go", though they are duplicates ignoring case |
| SkillInput.AddedSkillsOnce | src/app/resume-parser/SkillsForm.tsx:110-128 | corrected: no more skills are added than items |
| SkillInput.FinalKey | src/app/resume-parser/SkillsForm.tsx:112-124 | the pushed skill is trimmed and has the item's lower-case form as its key |
| SkillInput.AddedSkillsOnceTrimmed | src/app/resume-parser/SkillsForm.tsx:110-128 | every added skill is trimmed |
| SkillInput.AddedSkillsOnceOrigin | src/app/resume-parser/SkillsForm.tsx:110-128 | the added skills come from the items, in input order, each equal to its item ignoring case |
| SkillInput.AddedSkillsOnceFresh | src/app/resume-parser/SkillsForm.tsx:110-128 | corrected: no added skill duplicates, ignoring case, an existing skill or another added skill |
| SkillInput.AddedSkillsOnceCovers | src/app/resume-parser/SkillsForm.tsx:110-128 | after the add every item is present ignoring case |
| SkillInput.AddedSkillsOnceOutcome | src/app/resume-parser/SkillsForm.tsx:110-133 | nothing is added iff every item is already present ignoring case |
| SkillInput.SkillAdditionAsWrittenSpec | src/app/resume-parser/SkillsForm.tsx:86-134 | as written: blank input changes nothing; a change keeps the existing skills as a prefix and appends the skills of exactly the items not selected before the call; `onSkillsChange` is called iff some item is not yet present ignoring case |
| SkillInput.SkillAdditionSpec | src/app/resume-parser/SkillsForm.tsx:86-134 | corrected: blank input changes nothing; a change keeps the existing skills as a prefix and appends only fresh skills; `onSkillsChange` is called iff some item is not yet present ignoring case |
| SkillInput.AddSkill | src/app/resume-parser/SkillsForm.tsx:86-134 | the method (with the corrected duplicate check) returns `SkillAddition`: the new list when it grew, else nothing |
| SkillInput.SuggestionPool | src/app/resume-parser/SkillsForm.tsx:66-80 | the filtered pool is no larger than the available list |
| SkillInput.SuggestionPoolMember | src/app/resume-parser/SkillsForm.tsx:66-80 | a skill is in the pool iff it is available, not already selected ignoring case, and contains or is contained in the lower-cased, trimmed input |
| SkillInput.SuggestionsSpec | src/app/resume-parser/SkillsForm.tsx:58-84 | blank input gives no suggestions; there are at most five, all available and suggestible, forming a prefix of the pool in available-list order; when the pool has at most five they are exactly the suggestible skills |
| SkillInput.RemovedSkill | src/app/resume-parser/SkillsForm.tsx:136-138 | the removed skill no longer occurs (also SkillsTableRow.tsx:22-30) |
| SkillInput.RemovedSkillMember | src/app/resume-parser/SkillsForm.tsx:136-138 | exactly the entries different from the removed skill stay (also SkillsTableRow.tsx:26) |
| SkillInput.WithoutAbsent | src/app/resume-parser/SkillsForm.tsx:137 | removing a skill that is absent changes nothing, so the rest keeps its order (also SkillsTableRow.tsx:26) |
| SkillInput.RemoveAfterAdd | src/app/resume-parser/SkillsForm.tsx:136-138 | appending a new skill and removing it restores the list (also SkillsTableRow.tsx:22-30) |
| SkillInput.RemoveTwice | src/app/resume-parser/SkillsForm.tsx:136-138 | removing twice equals removing once (also SkillsTableRow.tsx:22-30) |
| SkillInput.TableRowAddSkill | src/app/resume-parser/SkillsTableRow.tsx:32-62 | the method returns `TableRowAddition`: nothing for blank input, else the list with the input's new skills appended |
| SkillInput.TableRowStep | src/app/resume-parser/SkillsTableRow.tsx:52-57 | one step of the loop keeps the list equal to the old skills followed by the deduplicated new items |
| SkillInput.PushAbsent | src/app/resume-parser/SkillsTableRow.tsx:51-57 | the push loop leaves the old skills followed by the typed skills not among them, each once, in first-typed order |
| SkillInput.TableRowAsSet | src/app/resume-parser/SkillsTableRow.tsx:32-62 | for a duplicate-free list and non-blank input the result is `Dedup(skills + items)`: the old list is a prefix, new skills follow in input order, and nothing is repeated (exact, case-sensitive check) |
| JobKeywords.Present | src/app/components/JobListingsModal.tsx:28-49 | only non-empty titles, skills and degrees are added, in order |
| JobKeywords.PresentMember | src/app/components/JobListingsModal.tsx:29-48 | a text is added iff it is present and non-empty |
| JobKeywords.FlattenMember | src/app/components/JobListingsModal.tsx:38-44 | a word of the flattened description pieces comes from some description |
| JobKeywords.WordLists | src/app/components/JobListingsModal.tsx:38-39 | one list of pieces per description, in order |
| JobKeywords.DescriptionWordsMember | src/app/components/JobListingsModal.tsx:38-44 | a description keyword is a trimmed piece of some description split on ',' or ';' |
| JobKeywords.DescriptionWordsClean | src/app/components/JobListingsModal.tsx:40-43 | every description keyword is non-empty and trimmed |
| JobKeywords.KeptKeywords | src/app/components/JobListingsModal.tsx:51-53 | the final filter keeps only keywords longer than 2 that are not "and", "the", "for" or "with" ignoring case, and never grows the list |
| JobKeywords.KeptKeywordsMember | src/app/components/JobListingsModal.tsx:51-53 | a keyword survives the filter iff it was collected and passes the test |
| JobKeywords.KeptKeywordsAppend | src/app/components/JobListingsModal.tsx:51-53 | the filter acts on each keyword separately and keeps order |
| JobKeywords.KeptKeywordsNoDups | src/app/components/JobListingsModal.tsx:51-53 | filtering a duplicate-free list leaves it duplicate-free |
| JobKeywords.SetAdd | src/app/components/JobListingsModal.tsx:25-29 | adding to the Set keeps its contents the duplicate-free list of everything added, in first-insertion order |
| JobKeywords.AddPresent | src/app/components/JobListingsModal.tsx:28-49 | a forEach over titles, skills or degrees adds exactly the non-empty ones to the Set |
| JobKeywords.AddDescriptionWords | src/app/components/JobListingsModal.tsx:38-44 | the forEach over the descriptions adds exactly their trimmed, non-empty pieces, in order |
| JobKeywords.AddWords | src/app/components/JobListingsModal.tsx:39-43 | one description adds its trimmed, non-empty pieces split on ',' or ';' |
| JobKeywords.AddPieces | src/app/components/JobListingsModal.tsx:40-43 | the inner forEach adds the trimmed, non-empty pieces |
| JobKeywords.AddWord | src/app/components/JobListingsModal.tsx:41-42 | one piece is added trimmed when not blank |
| JobKeywords.KeepKeywords | src/app/components/JobListingsModal.tsx:51-53 | the final filter computes `KeptKeywords` |
| JobKeywords.ExtractKeywordsFromResume | src/app/components/JobListingsModal.tsx:24-54 | the method returns `Keywords(resume)`: titles, featured skills, description pieces and degrees, deduplicated in first-insertion order, then filtered |
| JobKeywords.KeywordsSpec | src/app/components/JobListingsModal.tsx:25-53 | a keyword is returned iff it was collected and passes the filter; the result has no duplicates (exact match) |
| JobKeywords.RawKeywordsMember | src/app/components/JobListingsModal.tsx:28-49 | a collected keyword is a non-empty job title, a non-empty featured skill, a trimmed non-empty description piece, or a non-empty degree |
| JobKeywords.TitlesFirst | src/app/components/JobListingsModal.tsx:28-51 | the kept job titles come first, in order |
| JobKeywords.StopWordsDropped | src/app/components/JobListingsModal.tsx:51-53 | a keyword of length 2 or less, or a stop word in any casing, is never returned |
| StableSort.FilterSpec | src/components/JobListingsModal.tsx:74-85 | `Array.filter` yields a subsequence holding exactly the elements that pass |
| JobSearch.FilteredJobsSpec | src/components/JobListingsModal.tsx:74-85 | the filtered list is a subsequence of the jobs and holds exactly those whose title, company or description contains the term ignoring case, whose location contains the location filter (an empty one imposes nothing) and whose type matches |
| JobSearch.NoCriteriaKeepsAll | src/components/JobListingsModal.tsx:75-82 | an empty term, an empty location and type "all" keep every job |
| JobSearch.UnknownTypeKeepsNone | src/components/JobListingsModal.tsx:81-82 | a job type other than "all" and "remote" keeps no job |
| JobSearch.DigitRun | src/components/JobListingsModal.tsx:91-92 | `parseInt` reads the longest prefix of digits of the radix |
| JobSearch.Unsigned | src/components/JobListingsModal.tsx:91-92 | an unsigned digit run parses to a non-negative number |
| JobSearch.Decimal | src/components/JobListingsModal.tsx:91-92 | the decimal writing of a number is a non-empty run of digits |
| JobSearch.DecimalValue | src/components/JobListingsModal.tsx:91-92 | the decimal writing of n has value n |
| JobSearch.ParseIntDigits | src/components/JobListingsModal.tsx:91-92 | a non-empty run of decimal digits parses to its value |
| JobSearch.ParseIntDecimal | src/components/JobListingsModal.tsx:91-92 | `parseInt` inverts decimal writing |
| JobSearch.ParseIntNegative | src/components/JobListingsModal.tsx:91-92 | "-" followed by a decimal writing parses to the negative number |
| JobSearch.ParseIntMinus | src/components/JobListingsModal.tsx:91-92 | a leading "-" gives the negation of what the rest parses to, and `NaN` when the rest does not parse |
| JobSearch.ParseIntBlank | src/components/JobListingsModal.tsx:91-92 | a blank string parses to NaN (no number) |
| JobSearch.BeforeRange | src/components/JobListingsModal.tsx:91-92 | `split(' - ')[0]`: the whole text when " - " does not occur, else the text before its first occurrence |
| JobSearch.RangeAfterLow | src/components/JobListingsModal.tsx:90-92 | in "$low - rest" with no space in low, the first " - " follows low |
| JobSearch.MinSalaryOfRange | src/components/JobListingsModal.tsx:90-92 | the minimum salary of "$low - rest" is the number written in low once '$' and ',' are removed, e.g. "$80,000 - $110,000" gives 80000 |
| JobSearch.SortedJobsPermutation | src/components/JobListingsModal.tsx:88-106 | the sorted list is a permutation of the filtered list |
| JobSearch.RelevanceOrder | src/components/JobListingsModal.tsx:96-105 | with a non-empty term and no salary sort, the jobs whose title contains the term come first, each group in the filtered order |
| JobSearch.RelevanceWithoutTerm | src/components/JobListingsModal.tsx:96-105 | with an empty term and no salary sort the order is unchanged |
| JobSearch.SalaryOrder | src/components/JobListingsModal.tsx:89-94 | when every salary parses, the salary sort is non-increasing in the minimum salary and keeps the filtered order among jobs with equal minimum salary |
| StableSort.SortByPermutation | src/components/JobListingsModal.tsx:88 | `Array.prototype.sort` returns a permutation of its input (also extract-education.ts:316-376) |
| StableSort.SortBySorted | src/components/JobListingsModal.tsx:88 | for a comparator that is a total preorder the result is sorted (also extract-education.ts:316-376) |
| StableSort.SortByStable | src/components/JobListingsModal.tsx:88 | the sort is stable: elements the comparator ranks equal keep their relative order (also extract-education.ts:316-376) |
| StableSort.SortBySortedUnchanged | src/components/JobListingsModal.tsx:88 | an input that is already sorted is returned as it is (also extract-education.ts:376) |
| StableSort.SortByHead | src/app/lib/parse-resume-from-pdf/extract-resume-from-sections/extract-education.ts:316-363 | the head of the sorted list is a least element, and the earliest one of that rank |
| StableSort.SortByAgree | src/components/JobListingsModal.tsx:88-106 | two comparators that agree on the elements sort the same way |
| StableSort.PartitionSort | src/components/JobListingsModal.tsx:97-105 | a two-class comparator ("a passes or b fails") sorts into the passing elements followed by the failing ones, each in input order |

## Left out

- PDF reading, section lookup, subsection division, feature scoring, bullet-point detection and `deepClone` are not part of this model. Their results are inputs: score lists, an optional description-line index, a bullet-point function, and the scored texts.
- The regular expressions `isUniversity`, `is12th`, `is10th`, the school patterns, the degree patterns and the certification date pattern are inputs. They are given as match results (`collegeMatch`, one boolean per degree pattern, `dateOf`).
- ExtractEducation.BuildEducation: the GPA is the scored text. The `parseFloat(...).toFixed(2)` reformatting at extract-education.ts:236-255 is floating point and is not modelled. It never turns a non-empty GPA into an empty one, so the selection by merit is unaffected.
- The debugging outputs `educationsScores` and `profileScores` are not modelled.
- `toLowerCase` is modelled on ASCII letters only. Full Unicode case mapping is not modelled.
- ExtractSkills.ProcessedSkillsLong: lengths are counted in Dafny characters, not UTF-16 code units. The two differ only for characters outside the Basic Multilingual Plane. The same holds for JobKeywords.KeptKeywords.
- ExtractSkills.StrLeTotalPreorder: the default `sort()` compares UTF-16 code units, while the model compares characters. The orders agree except for characters outside the Basic Multilingual Plane.
- `Array.prototype.sort` is modelled as a stable insertion sort. Stability is what the language standard requires since ECMAScript 2019. The engine's own algorithm is not modelled.
- JobSearch.SalaryOrder: sortedness by salary is proved only when every salary parses. A salary that does not parse makes the comparator return `NaN`, and the sort treats that as 0. Such a comparator is not consistent, so an engine's order may differ from the model's.
- `parseInt` of values above 2^53: they lose precision in JavaScript, while the model's integers are exact.
- The mock job data of `src/components/JobListingsModal.tsx` is not modelled. The job list is an input.
- `fetch` of the skills file and of job listings, `console` logging, React state, effects and rendering are not modelled. A failed fetch is `None` (ExtractSkills.NoFileNoSkills).
- `initialFeaturedSkills` lives in a file that is not part of this model, so it is a parameter.
- The `processedSkills` effect of SkillsForm.tsx:51-55 is not modelled. Nothing ever fills `processedSkills`, so the effect never calls `onSkillsChange`.
- `onValueChange` and `onSkillsChange` are assumed present. When absent, the save and add handlers do nothing.
- Clearing the input after an add (`setNewSkill("")`) is UI state and is not modelled.
- ResumeEditing.UpdateEntry: the `as any` field writes of the `update*` helpers become an edit function applied to the entry. Which field is written, and with what type of value, is not modelled.
- ResumeSlice.ResumeStore.UpdateExperience requires an index no greater than the length. In JavaScript an assignment further past the end grows the array with holes, and a sequence cannot hold holes. Indices inside the list, at the length and negative ones are all modelled. A non-integer index is not modelled. The same holds for ResumeSlice.ResumeStore.UpdateEducation.
- ExtractCertifications.DatedCertification does not claim that the name is free of trailing separators. The final `trim` can expose one again ("A - ," becomes "A -"), and the model keeps that behaviour.
- The `Resume` records hold the fields the modelled code reads and writes. Their type file is not part of this model.

## Findings

| source | as written | input that shows it | evidently intended | confidence | as-written member | corrected member |
|---|---|---|---|---|---|---|
| src/app/resume-parser/ParsedForm.tsx:413-426,474-490,564-568 | an empty list is shown as one placeholder entry, but editing it calls `update*(0, …)` on the empty list, and `educations[0][field] = …` throws a TypeError; ResumeTable.tsx:237-250,300-316,390-394 has the same code | a résumé with no educations; edit the school field of the placeholder | the edit creates the first entry from the placeholder | not executed | ResumeEditing.PlaceholderEditFails | ResumeEditing.UpdateShownEntrySpec |
| src/app/resume-parser/SkillsForm.tsx:110-128 | `isDuplicate` checks only the original skills, not those added earlier in the same input | skills [], input "Go, go": both "Go" and "go" are added | an item that repeats an earlier item of the same input, ignoring case, is skipped (as SkillsTableRow.tsx:53-58 does, case-sensitively) | not executed | SkillInput.RepeatedItemAddedTwice | SkillInput.AddedSkillsOnceFresh |

/** The profile extractor of
    `src/app/lib/parse-resume-from-pdf/extract-resume-from-sections/extract-profile.ts`:
    the prefix clean-up of matched e-mail addresses and URLs, the field
    sanitiser, and the choice of summary. The feature scorer and the
    regular-expression matches are not part of this model: the
    highest-scoring texts and the raw matches are inputs. */
module ExtractProfile {
  import opened Wrappers
  import opened Strings
  import opened ResumeLines

  // ---------------------------------------------------------------------
  // Leading-run removal

  /** `s.replace(/^[^…]+/, '')`: drops the leading run of characters that
      are not allowed to start the value. */
  function StripLeading(s: string, allowed: char -> bool): (r: string)
    ensures |r| <= |s| && r == s[|s| - |r|..]
    ensures r == [] || allowed(r[0])
    ensures forall i :: 0 <= i < |s| - |r| ==> !allowed(s[i])
    decreases |s|
  {
    if s == [] || allowed(s[0]) then s else StripLeading(s[1..], allowed)
  }

  /** Removing the leading run a second time changes nothing. */
  lemma StripLeadingIdempotent(s: string, allowed: char -> bool)
    ensures StripLeading(StripLeading(s, allowed), allowed) == StripLeading(s, allowed)
  {
  }

  /** Every character that may start a cleaned e-mail address: `[a-zA-Z0-9]`. */
  predicate EmailStart(c: char)
  {
    IsAlnum(c)
  }

  /** Every character that may start a sanitised URL: `[a-zA-Z0-9:]`. */
  predicate UrlStart(c: char)
  {
    IsAlnum(c) || c == ':'
  }

  /** `matchEmail` and `matchUrl` after their pattern matched `m`: the
      match without its leading non-alphanumeric run. */
  function CleanMatch(m: string): (r: string)
  {
    StripLeading(m, EmailStart)
  }

  predicate HttpStart(c: char)
  {
    c == 'h'
  }

  /** `matchUrlHttpFallback` after its pattern matched `m`: everything
      before the first 'h' goes. */
  function CleanHttpMatch(m: string): (r: string)
  {
    StripLeading(m, HttpStart)
  }

  /** A cleaned match is empty or starts with a letter or digit (for the
      HTTP fallback: with 'h'), and only a leading run was removed. */
  lemma CleanMatchesSpec(m: string)
    ensures var r := CleanMatch(m); (r == [] || IsAlnum(r[0])) && r == m[|m| - |r|..]
    ensures var r := CleanHttpMatch(m);
      && (r == [] || r[0] == 'h') && r == m[|m| - |r|..]
      && forall i :: 0 <= i < |m| - |r| ==> m[i] != 'h'
  {
    var r := CleanHttpMatch(m);
    assert forall i :: 0 <= i < |m| - |r| ==> !HttpStart(m[i]);
  }

  // ---------------------------------------------------------------------
  // The sanitiser's rules, field by field

  function SanitizedEmail(email: string): string
  {
    if email == "" then email else StripLeading(email, EmailStart)
  }

  /** `^(https?:\/\/|www\.)`, case-sensitive. */
  predicate HasUrlScheme(s: string)
  {
    StartsWith(s, "http://") || StartsWith(s, "https://") || StartsWith(s, "www.")
  }

  const HttpsPrefix: string := "https://"

  function SanitizedUrl(url: string): string
  {
    if url == "" then url
    else
      var u := StripLeading(url, UrlStart);
      if HasUrlScheme(u) then u else HttpsPrefix + u
  }

  /** `[\d\+\(\)\-\s\.]`: the characters a phone number keeps. */
  predicate PhoneChar(c: char)
  {
    IsDigit(c) || c == '+' || c == '(' || c == ')' || c == '-' || c == '.' || IsWhite(c)
  }

  /** `phone.replace(/[^\d\+\(\)\-\s\.]/g, '')`. */
  function KeepPhoneChars(s: string): (r: string)
    ensures |r| <= |s|
    ensures AllPhoneChars(r)
    decreases |s|
  {
    if s == [] then []
    else (if PhoneChar(s[0]) then [s[0]] else []) + KeepPhoneChars(s[1..])
  }

  /** A string made only of phone characters is kept whole. */
  lemma {:induction false} KeepPhoneCharsOfKept(s: string)
    requires AllPhoneChars(s)
    ensures KeepPhoneChars(s) == s
    decreases |s|
  {
    if s != [] {
      KeepPhoneCharsOfKept(s[1..]);
    }
  }

  /** Dropping non-phone characters drops no digit. */
  lemma {:induction false} KeepPhoneCharsDigits(s: string)
    ensures Digits(KeepPhoneChars(s)) == Digits(s)
    decreases |s|
  {
    if s != [] {
      KeepPhoneCharsDigits(s[1..]);
      DigitsAppend(if PhoneChar(s[0]) then [s[0]] else [], KeepPhoneChars(s[1..]));
    }
  }

  /** Ten digits: two groups of five. More: "+", the leading digits as a
      country code, then two groups of five. */
  function GroupedPhone(d: string): string
    requires |d| >= 10
  {
    if |d| == 10 then d[..5] + " " + d[5..]
    else "+" + d[..|d| - 10] + " " + d[|d| - 10..|d| - 5] + " " + d[|d| - 5..]
  }

  function SanitizedPhone(phone: string): string
  {
    if phone == "" then phone
    else
      var kept := KeepPhoneChars(phone);
      var digits := Digits(kept);
      if |digits| >= 10 then GroupedPhone(digits) else kept
  }

  lemma TenDigitLayout(d: string)
    requires |d| == 10 && AllDigits(d)
    ensures Digits(d[..5] + " " + d[5..]) == d
  {
    var a, b := d[..5], d[5..];
    DigitsAppend(a, " ");
    DigitsAppend(a + " ", b);
    DigitsOfDigits(a);
    DigitsOfDigits(b);
    assert Digits(" ") == [];
    assert a + b == d;
  }

  /** Digits of a digit run, a separator and a digit run. */
  lemma DigitsAround(x: string, sep: string, y: string)
    requires Digits(sep) == []
    ensures Digits(x + sep + y) == Digits(x) + Digits(y)
  {
    DigitsAppend(x, sep);
    DigitsAppend(x + sep, y);
    assert x + [] == x;
  }

  /** The digits on both sides of one non-digit character. */
  lemma DigitsAroundChar(x: string, c: char, y: string)
    requires !IsDigit(c)
    ensures Digits(x + [c] + y) == Digits(x) + Digits(y)
  {
    DigitsAppend(x, [c] + y);
    assert x + [c] + y == x + ([c] + y);
    assert Digits([c] + y) == Digits(y) by {
      assert ([c] + y)[1..] == y;
    }
  }

  lemma DigitsOfGroups(cc: string, a: string, b: string)
    requires AllDigits(cc) && AllDigits(a) && AllDigits(b)
    ensures Digits("+" + cc + " " + a + " " + b) == cc + a + b
  {
    DigitsOfDigits(cc);
    DigitsOfDigits(a);
    DigitsOfDigits(b);
    var s1 := ['+'] + cc;
    DigitsAroundChar([], '+', cc);
    assert [] + ['+'] + cc == s1;
    assert Digits(s1) == cc;
    var s2 := s1 + [' '] + a;
    DigitsAroundChar(s1, ' ', a);
    assert Digits(s2) == cc + a;
    var s3 := s2 + [' '] + b;
    DigitsAroundChar(s2, ' ', b);
    assert Digits(s3) == cc + a + b;
    assert s3 == "+" + cc + " " + a + " " + b;
  }

  lemma LongLayout(d: string)
    requires |d| > 10 && AllDigits(d)
    ensures Digits("+" + d[..|d| - 10] + " " + d[|d| - 10..|d| - 5] + " " + d[|d| - 5..]) == d
  {
    var n := |d|;
    DigitsOfGroups(d[..n - 10], d[n - 10..n - 5], d[n - 5..]);
    assert d[..n - 10] + d[n - 10..n - 5] + d[n - 5..] == d;
  }

  predicate AllPhoneChars(s: string)
  {
    forall i :: 0 <= i < |s| ==> PhoneChar(s[i])
  }

  lemma AllPhoneCharsAppend(a: string, b: string)
    requires AllPhoneChars(a) && AllPhoneChars(b)
    ensures AllPhoneChars(a + b)
  {
    forall i | 0 <= i < |a + b|
      ensures PhoneChar((a + b)[i])
    {
      if i < |a| {
        assert (a + b)[i] == a[i];
      } else {
        assert (a + b)[i] == b[i - |a|];
      }
    }
  }

  /** The grouped layouts are made of phone characters and hold the digits
      in their original order. */
  lemma GroupedPhoneLayout(d: string)
    requires |d| >= 10 && AllDigits(d)
    ensures AllPhoneChars(GroupedPhone(d))
    ensures Digits(GroupedPhone(d)) == d
  {
    var n := |d|;
    assert AllPhoneChars(" ") && AllPhoneChars("+");
    if n == 10 {
      TenDigitLayout(d);
      AllPhoneCharsAppend(d[..5], " ");
      AllPhoneCharsAppend(d[..5] + " ", d[5..]);
    } else {
      LongLayout(d);
      var cc, a, b := d[..n - 10], d[n - 10..n - 5], d[n - 5..];
      AllPhoneCharsAppend("+", cc);
      AllPhoneCharsAppend("+" + cc, " ");
      AllPhoneCharsAppend("+" + cc + " ", a);
      AllPhoneCharsAppend("+" + cc + " " + a, " ");
      AllPhoneCharsAppend("+" + cc + " " + a + " ", b);
    }
  }

  /** The three phone layouts, stated on the digits of the input. */
  lemma SanitizedPhoneCases(phone: string)
    requires phone != ""
    ensures var r, d := SanitizedPhone(phone), Digits(phone);
      && (|d| == 10 ==> r == d[..5] + " " + d[5..] && |r| == 11)
      && (|d| > 10 ==> r == "+" + d[..|d| - 10] + " " + d[|d| - 10..|d| - 5] + " " + d[|d| - 5..])
      && (|d| < 10 ==> r == KeepPhoneChars(phone))
  {
    KeepPhoneCharsDigits(phone);
  }

  /** The sanitised phone holds the input's digits, in order. */
  lemma SanitizedPhoneDigits(phone: string)
    ensures Digits(SanitizedPhone(phone)) == Digits(phone)
  {
    if phone != "" {
      KeepPhoneCharsDigits(phone);
      var d := Digits(phone);
      if |d| >= 10 {
        GroupedPhoneLayout(d);
      }
    }
  }

  /** Sanitising a sanitised phone changes nothing. */
  lemma SanitizedPhoneIdempotent(phone: string)
    ensures SanitizedPhone(SanitizedPhone(phone)) == SanitizedPhone(phone)
  {
    var r := SanitizedPhone(phone);
    if phone != "" && r != "" {
      KeepPhoneCharsDigits(phone);
      var d := Digits(phone);
      if |d| >= 10 {
        GroupedPhoneLayout(d);
      }
      KeepPhoneCharsOfKept(r);
    }
  }

  /** A non-empty sanitised e-mail starts with a letter or digit, and
      sanitising again changes nothing. */
  lemma SanitizedEmailSpec(email: string)
    ensures var r := SanitizedEmail(email); r == [] || IsAlnum(r[0])
    ensures SanitizedEmail(SanitizedEmail(email)) == SanitizedEmail(email)
    ensures email != "" ==> SanitizedEmail(email) == email[|email| - |SanitizedEmail(email)|..]
  {
  }

  /** A cleaned matched address passes the sanitiser untouched. */
  lemma SanitizedEmailOfMatch(m: string)
    ensures SanitizedEmail(CleanMatch(m)) == CleanMatch(m)
  {
  }

  lemma PrefixedHasScheme(u: string)
    ensures HasUrlScheme(HttpsPrefix + u)
  {
    assert (HttpsPrefix + u)[..|HttpsPrefix|] == HttpsPrefix;
  }

  lemma SchemeStartsAllowed(u: string)
    requires HasUrlScheme(u)
    ensures u != [] && UrlStart(u[0])
  {
    if StartsWith(u, "http://") {
      assert u[0] == "http://"[0];
    } else if StartsWith(u, "https://") {
      assert u[0] == "https://"[0];
    } else {
      assert u[0] == "www."[0];
    }
  }

  /** A non-empty URL comes out with a scheme or "www." in front, after its
      leading run of characters other than letters, digits and ':' is
      dropped; an empty one stays empty; sanitising again changes nothing. */
  lemma SanitizedUrlSpec(url: string)
    ensures url == "" ==> SanitizedUrl(url) == ""
    ensures url != "" ==> HasUrlScheme(SanitizedUrl(url))
    ensures url != "" ==>
      var u := StripLeading(url, UrlStart);
      SanitizedUrl(url) == if HasUrlScheme(u) then u else HttpsPrefix + u
    ensures SanitizedUrl(SanitizedUrl(url)) == SanitizedUrl(url)
  {
    if url != "" {
      var u := StripLeading(url, UrlStart);
      var r := SanitizedUrl(url);
      if !HasUrlScheme(u) {
        PrefixedHasScheme(u);
      }
      SchemeStartsAllowed(r);
      assert StripLeading(r, UrlStart) == r;
    }
  }

  // ---------------------------------------------------------------------
  // The profile record and the extractor

  /** The profile object that `extractProfile` builds and the sanitiser
      rewrites in place. */
  class Profile {
    var name: string
    var email: string
    var phone: string
    var location: string
    var url: string
    var summary: string

    constructor (name: string, email: string, phone: string, location: string, url: string, summary: string)
      ensures this.name == name && this.email == email && this.phone == phone
      ensures this.location == location && this.url == url && this.summary == summary
    {
      this.name := name;
      this.email := email;
      this.phone := phone;
      this.location := location;
      this.url := url;
      this.summary := summary;
    }

    /** `sanitizeProfileFields`: e-mail, URL and phone are rewritten when
        non-empty; name, location and summary are never touched. The
        `hasPlus` flag of the source is computed but never used. */
    method SanitizeProfileFields()
      modifies this
      ensures email == SanitizedEmail(old(email))
      ensures url == SanitizedUrl(old(url))
      ensures phone == SanitizedPhone(old(phone))
      ensures name == old(name) && location == old(location) && summary == old(summary)
    {
      if email != "" {
        email := StripLeading(email, EmailStart);
      }
      if url != "" {
        url := StripLeading(url, UrlStart);
        if !HasUrlScheme(url) {
          url := HttpsPrefix + url;
        }
      }
      if phone != "" {
        var p := RegroupPhone(phone);
        phone := p;
      }
    }
  }

  /** The phone branch of `sanitizeProfileFields` for a non-empty phone. */
  method RegroupPhone(phone: string) returns (p: string)
    requires phone != ""
    ensures p == SanitizedPhone(phone)
  {
    p := KeepPhoneChars(phone);
    var digits := Digits(p);
    if |digits| >= 10 {
      if |digits| == 10 {
        p := digits[..5] + " " + digits[5..];
      } else if |digits| > 10 {
        var countryCode := digits[..|digits| - 10];
        var remaining := digits[|digits| - 10..];
        assert remaining[..5] == digits[|digits| - 10..|digits| - 5];
        assert remaining[5..] == digits[|digits| - 5..];
        p := "+" + countryCode + " " + remaining[..5] + " " + remaining[5..];
      }
      assert p == GroupedPhone(digits);
    }
  }

  /** The highest-scoring text of the profile section for each field. */
  datatype ScoredProfile = ScoredProfile(name: string, email: string, phone: string, location: string, url: string, summary: string)

  /** `summarySection || objectiveSection || summary`. */
  function ChosenSummary(summarySection: string, objectiveSection: string, scored: string): (r: string)
  {
    if summarySection != "" then summarySection
    else if objectiveSection != "" then objectiveSection
    else scored
  }

  /** A dedicated summary section wins, then an objective section, then the
      scored text; the result is empty only when all three are. */
  lemma ChosenSummarySpec(summarySection: string, objectiveSection: string, scored: string)
    ensures var r := ChosenSummary(summarySection, objectiveSection, scored);
      && (r == summarySection || r == objectiveSection || r == scored)
      && (summarySection != "" ==> r == summarySection)
      && (summarySection == "" && objectiveSection != "" ==> r == objectiveSection)
      && (r == "" <==> summarySection == "" && objectiveSection == "" && scored == "")
  {
  }

  /** `extractProfile`: the scored fields, the summary by precedence over
      the summary and objective sections, then the sanitiser. */
  method ExtractProfile(scored: ScoredProfile, summaryLines: seq<Line>, objectiveLines: seq<Line>)
    returns (profile: Profile)
    ensures fresh(profile)
    ensures profile.name == scored.name && profile.location == scored.location
    ensures profile.email == SanitizedEmail(scored.email)
    ensures profile.url == SanitizedUrl(scored.url)
    ensures profile.phone == SanitizedPhone(scored.phone)
    ensures profile.summary == ChosenSummary(SectionText(summaryLines), SectionText(objectiveLines), scored.summary)
  {
    var summarySection := SectionText(summaryLines);
    var objectiveSection := SectionText(objectiveLines);
    profile := new Profile(scored.name, scored.email, scored.phone, scored.location, scored.url,
                           ChosenSummary(summarySection, objectiveSection, scored.summary));
    profile.SanitizeProfileFields();
  }
}

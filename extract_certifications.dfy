/** The certification extractor of
    `src/app/lib/parse-resume-from-pdf/extract-resume-from-sections/extract-certifications.ts`.
    The lines before the description index are certification headers,
    one certification per non-blank line; the bullet points after it all
    go to the first certification. The section lookup, the description
    index, the bullet-point reader and the date pattern are inputs. */
module ExtractCertifications {
  import opened Wrappers
  import opened Strings
  import opened ResumeLines

  datatype ResumeCertification = ResumeCertification(name: string, date: string, descriptions: seq<string>)

  /** `line.map(item => item.text).join(' ').trim()`. */
  function LineText(line: Line): string
  {
    Trim(Join(line, " "))
  }

  /** The separators `/[-–—|,]+$/` removes from the end of a name. */
  const TrailingSeparators: set<char> := {'-', '–', '—', '|', ','}

  /** Drops the trailing run of characters of `cs`. */
  function DropTrailing(s: string, cs: set<char>): (r: string)
    ensures |r| <= |s| && r == s[..|r|]
    ensures r == [] || r[|r| - 1] !in cs
    ensures forall i :: |r| <= i < |s| ==> s[i] in cs
    decreases |s|
  {
    if s == [] || s[|s| - 1] !in cs then s else DropTrailing(s[..|s| - 1], cs)
  }

  /** One header line's certification. `dateOf` is the first match of
      the date pattern in the text, if any. Without a date the name is the
      whole text; with one, the name is the text with the first occurrence
      of the date removed, trimmed, stripped of trailing separators and
      trimmed again. */
  function CertificationOf(lineText: string, dateOf: string -> Option<string>): ResumeCertification
  {
    match dateOf(lineText)
    case None => ResumeCertification(lineText, "", [])
    case Some(date) =>
      var name := Trim(RemoveFirst(lineText, date));
      ResumeCertification(Trim(DropTrailing(name, TrailingSeparators)), date, [])
  }

  /** The certifications of the header lines, in line order. */
  function HeaderCertifications(lines: seq<Line>, dateOf: string -> Option<string>): (r: seq<ResumeCertification>)
    ensures |r| <= |lines|
    ensures forall i :: 0 <= i < |r| ==> r[i].descriptions == []
    decreases |lines|
  {
    if lines == [] then []
    else
      var text := LineText(lines[|lines| - 1]);
      HeaderCertifications(lines[..|lines| - 1], dateOf)
      + (if text != "" then [CertificationOf(text, dateOf)] else [])
  }

  function Clamp(idx: nat, len: nat): (k: nat)
    ensures k <= len
  {
    if idx <= len then idx else len
  }

  /** What `extractCertifications` returns for the section's lines. */
  function ExtractedCertifications(lines: seq<Line>, descriptionsLineIdx: Option<nat>,
                                   dateOf: string -> Option<string>, bullets: seq<Line> -> seq<string>)
    : seq<ResumeCertification>
  {
    if |lines| == 0 then []
    else
      var idx := match descriptionsLineIdx case Some(k) => k case None => 0;
      var certs := if idx != 0 then HeaderCertifications(lines[..Clamp(idx, |lines|)], dateOf) else [];
      if |certs| > 0 && idx < |lines| then
        var descriptions := bullets(lines[idx..]);
        if |descriptions| > 0 then certs[0 := certs[0].(descriptions := descriptions)] else certs
      else certs
  }

  method ExtractCertifications(lines: seq<Line>, descriptionsLineIdx: Option<nat>,
                               dateOf: string -> Option<string>, bullets: seq<Line> -> seq<string>)
    returns (certifications: seq<ResumeCertification>)
    ensures certifications == ExtractedCertifications(lines, descriptionsLineIdx, dateOf, bullets)
  {
    if |lines| == 0 {
      return [];
    }
    certifications := [];
    var idx := match descriptionsLineIdx case Some(k) => k case None => 0;
    if idx != 0 {
      certifications := HeaderLoop(lines[..Clamp(idx, |lines|)], dateOf);
    }
    if |certifications| > 0 && idx < |lines| {
      var descriptions := bullets(lines[idx..]);
      if |descriptions| > 0 {
        certifications := certifications[0 := certifications[0].(descriptions := descriptions)];
      }
    }
  }

  /** The loop over the header lines. */
  method HeaderLoop(certificationLines: seq<Line>, dateOf: string -> Option<string>)
    returns (certifications: seq<ResumeCertification>)
    ensures certifications == HeaderCertifications(certificationLines, dateOf)
  {
    certifications := [];
    for i := 0 to |certificationLines|
      invariant certifications == HeaderCertifications(certificationLines[..i], dateOf)
    {
      assert certificationLines[..i + 1][..i] == certificationLines[..i];
      var lineText := LineText(certificationLines[i]);
      if lineText != "" {
        var name := lineText;
        var date := "";
        var dateMatch := dateOf(lineText);
        if dateMatch.Some? {
          date := dateMatch.value;
          name := Trim(RemoveFirst(lineText, date));
          name := Trim(DropTrailing(name, TrailingSeparators));
        }
        assert ResumeCertification(name, date, []) == CertificationOf(lineText, dateOf);
        certifications := certifications + [ResumeCertification(name, date, [])];
      }
    }
    assert certificationLines[..|certificationLines|] == certificationLines;
  }

  // ---------------------------------------------------------------------
  // Properties

  /** An empty section, or a description index that is absent or 0,
      yields no certifications. */
  lemma NoCertificationsWithoutHeaders(lines: seq<Line>, descriptionsLineIdx: Option<nat>,
                                       dateOf: string -> Option<string>, bullets: seq<Line> -> seq<string>)
    requires |lines| == 0 || descriptionsLineIdx.None? || descriptionsLineIdx == Some(0)
    ensures ExtractedCertifications(lines, descriptionsLineIdx, dateOf, bullets) == []
  {
  }

  /** Header certifications distribute over the lines: line order is kept
      and each line contributes on its own. */
  lemma {:induction false} HeaderCertificationsAppend(a: seq<Line>, b: seq<Line>, dateOf: string -> Option<string>)
    ensures HeaderCertifications(a + b, dateOf) == HeaderCertifications(a, dateOf) + HeaderCertifications(b, dateOf)
    decreases |b|
  {
    if b == [] {
      assert a + b == a;
    } else {
      var last := if LineText(b[|b| - 1]) != "" then [CertificationOf(LineText(b[|b| - 1]), dateOf)] else [];
      LastOfAppend(a, b);
      HeaderCertificationsAppend(a, b[..|b| - 1], dateOf);
      calc {
        HeaderCertifications(a + b, dateOf);
        HeaderCertifications(a + b[..|b| - 1], dateOf) + last;
        (HeaderCertifications(a, dateOf) + HeaderCertifications(b[..|b| - 1], dateOf)) + last;
        { ConcatAssoc(HeaderCertifications(a, dateOf), HeaderCertifications(b[..|b| - 1], dateOf), last); }
        HeaderCertifications(a, dateOf) + (HeaderCertifications(b[..|b| - 1], dateOf) + last);
        HeaderCertifications(a, dateOf) + HeaderCertifications(b, dateOf);
      }
    }
  }

  /** The number of header lines whose joined, trimmed text is not empty. */
  function NonBlankLines(lines: seq<Line>): nat
  {
    if lines == [] then 0 else (if LineText(lines[0]) != "" then 1 else 0) + NonBlankLines(lines[1..])
  }

  /** Exactly one certification per non-blank header line. */
  lemma {:induction false} HeaderCertificationsCount(lines: seq<Line>, dateOf: string -> Option<string>)
    ensures |HeaderCertifications(lines, dateOf)| == NonBlankLines(lines)
    decreases |lines|
  {
    if lines != [] {
      HeaderCertificationsAppend([lines[0]], lines[1..], dateOf);
      assert [lines[0]] + lines[1..] == lines;
      HeaderCertificationsCount(lines[1..], dateOf);
      assert [lines[0]][..0] == [];
    }
  }

  /** Without a date the name is the line's text and the date is empty. */
  lemma UndatedCertification(lineText: string, dateOf: string -> Option<string>)
    requires dateOf(lineText).None?
    ensures CertificationOf(lineText, dateOf) == ResumeCertification(lineText, "", [])
  {
  }

  /** `trim` keeps a piece of the string, starting after the leading white space. */
  lemma TrimOccurs(s: string) returns (a: nat)
    ensures a == |s| - |TrimStart(s)|
    ensures a + |Trim(s)| <= |s| && s[a..a + |Trim(s)|] == Trim(s)
  {
    var t := TrimStart(s);
    TrimStartShape(s);
    TrimEndShape(t);
    a := |s| - |t|;
    PrefixOfSuffix(s, a, t, Trim(s));
  }

  /** Trimming, dropping a trailing run and trimming again leaves a trimmed
      piece of the original string. */
  lemma CleanedNameInside(u: string, cs: set<char>)
    ensures var n := Trim(DropTrailing(Trim(u), cs));
      IsTrimmed(n) && exists a: nat :: OccursAt(u, n, a)
  {
    var t := Trim(u);
    var d := DropTrailing(t, cs);
    var n := Trim(d);
    TrimTrimmed(d);
    var a1 := TrimOccurs(u);
    var a2 := TrimOccurs(d);
    NestedSlices(u, t, d, n, a1, a2);
  }

  /** A piece of a prefix of a piece is a piece. */
  lemma NestedSlices(u: string, t: string, d: string, n: string, a1: nat, a2: nat)
    requires a1 + |t| <= |u| && t == u[a1..a1 + |t|]
    requires |d| <= |t| && d == t[..|d|]
    requires a2 + |n| <= |d| && n == d[a2..a2 + |n|]
    ensures OccursAt(u, n, a1 + a2)
  {
    assert forall k :: 0 <= k < |n| ==> n[k] == d[a2 + k] == t[a2 + k] == u[a1 + a2 + k];
  }

  /** With a date, the date is the matched text and the name is a trimmed
      piece of the text with the first occurrence of the date taken out. */
  lemma DatedCertification(lineText: string, dateOf: string -> Option<string>)
    requires dateOf(lineText).Some?
    ensures var c := CertificationOf(lineText, dateOf);
      && c.date == dateOf(lineText).value
      && IsTrimmed(c.name)
      && c.descriptions == []
      && exists a: nat :: OccursAt(RemoveFirst(lineText, c.date), c.name, a)
  {
    CleanedNameInside(RemoveFirst(lineText, dateOf(lineText).value), TrailingSeparators);
  }

  /** One certification per non-blank header line, at most as many as
      header lines; only the first one can carry descriptions, and those are
      the bullet points of the lines from the description index on. */
  lemma ExtractedCertificationsSpec(lines: seq<Line>, descriptionsLineIdx: Option<nat>,
                                    dateOf: string -> Option<string>, bullets: seq<Line> -> seq<string>)
    ensures var r := ExtractedCertifications(lines, descriptionsLineIdx, dateOf, bullets);
      && (forall i :: 1 <= i < |r| ==> r[i].descriptions == [])
      && (descriptionsLineIdx.Some? ==> |r| <= descriptionsLineIdx.value)
      && |r| <= |lines|
    ensures var r, idx := ExtractedCertifications(lines, descriptionsLineIdx, dateOf, bullets),
                          match descriptionsLineIdx case Some(k) => k case None => 0;
      && (|lines| > 0 && idx != 0 ==> |r| == NonBlankLines(lines[..Clamp(idx, |lines|)]))
      && (|r| > 0 && idx < |lines| ==>
            r[0].descriptions == if |bullets(lines[idx..])| > 0 then bullets(lines[idx..]) else [])
      && (|r| > 0 && idx >= |lines| ==> r[0].descriptions == [])
  {
    var idx := match descriptionsLineIdx case Some(k) => k case None => 0;
    if |lines| > 0 && idx != 0 {
      HeaderCertificationsCount(lines[..Clamp(idx, |lines|)], dateOf);
    }
  }
}

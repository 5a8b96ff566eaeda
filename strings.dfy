/** The JavaScript string and array built-ins the résumé code leans on
    (`trim`, `toLowerCase`, `includes`, `indexOf`, `startsWith`, `split`,
    `join`, `replace(/\D/g, '')`, and the insertion-ordered `Set`), written
    out over `seq<char>` with the facts the other modules need about them. */
module Strings {
  import opened Wrappers

  // ---------------------------------------------------------------------
  // Character classes
  // ---------------------------------------------------------------------

  /** The characters `String.prototype.trim` removes and the regex class
      `\s` matches (white space and line terminators). */
  predicate IsWhite(c: char)
  {
    c == ' ' || c == '\t' || c == '\n' || c == '\r' || c == '\U{000B}' || c == '\U{000C}'
    || c == '\U{00A0}' || c == '\U{1680}' || ('\U{2000}' <= c <= '\U{200A}')
    || c == '\U{2028}' || c == '\U{2029}' || c == '\U{202F}' || c == '\U{205F}'
    || c == '\U{3000}' || c == '\U{FEFF}'
  }

  /** The regex class `\d`. */
  predicate IsDigit(c: char)
  {
    '0' <= c <= '9'
  }

  /** The regex class `[a-zA-Z0-9]`. */
  predicate IsAlnum(c: char)
  {
    IsDigit(c) || ('a' <= c <= 'z') || ('A' <= c <= 'Z')
  }

  predicate AllWhite(s: string)
  {
    forall i :: 0 <= i < |s| ==> IsWhite(s[i])
  }

  predicate AllDigits(s: string)
  {
    forall i :: 0 <= i < |s| ==> IsDigit(s[i])
  }

  // ---------------------------------------------------------------------
  // Case
  // ---------------------------------------------------------------------

  /** `toLowerCase` on one character (ASCII letters only). */
  function LowerChar(c: char): (r: char)
    ensures !('A' <= r <= 'Z')
    ensures !('A' <= c <= 'Z') ==> r == c
  {
    if 'A' <= c <= 'Z' then (c as int + 32) as char else c
  }

  function ToLower(s: string): (r: string)
    ensures |r| == |s|
    ensures forall i :: 0 <= i < |s| ==> r[i] == LowerChar(s[i])
  {
    seq(|s|, i requires 0 <= i < |s| => LowerChar(s[i]))
  }

  lemma ToLowerAppend(a: string, b: string)
    ensures ToLower(a + b) == ToLower(a) + ToLower(b)
  {
  }

  lemma ToLowerIdempotent(s: string)
    ensures ToLower(ToLower(s)) == ToLower(s)
  {
  }

  // ---------------------------------------------------------------------
  // Trimming
  // ---------------------------------------------------------------------

  /** `trimStart`: drops the leading run of white space. */
  function TrimStart(s: string): string
    decreases |s|
  {
    if |s| > 0 && IsWhite(s[0]) then TrimStart(s[1..]) else s
  }

  /** `trimEnd`: drops the trailing run of white space. */
  function TrimEnd(s: string): string
    decreases |s|
  {
    if |s| > 0 && IsWhite(s[|s| - 1]) then TrimEnd(s[..|s| - 1]) else s
  }

  /** `trimStart` keeps a suffix and drops only white space, up to a
      character that is not white. */
  lemma {:induction false} TrimStartShape(s: string)
    ensures var r := TrimStart(s);
      && |r| <= |s| && r == s[|s| - |r|..]
      && (r == [] || !IsWhite(r[0]))
      && AllWhite(s[..|s| - |r|])
    decreases |s|
  {
    if |s| > 0 && IsWhite(s[0]) {
      var r := TrimStart(s[1..]);
      assert TrimStart(s) == r;
      TrimStartShape(s[1..]);
      DropFirstSlices(s, |r|);
      AllWhiteAppend([s[0]], s[1..][..|s| - 1 - |r|]);
    }
  }

  /** `trimEnd` keeps a prefix and drops only white space, back to a
      character that is not white. */
  lemma {:induction false} TrimEndShape(s: string)
    ensures var r := TrimEnd(s);
      && |r| <= |s| && r == s[..|r|]
      && (r == [] || !IsWhite(r[|r| - 1]))
      && AllWhite(s[|r|..])
    decreases |s|
  {
    if |s| > 0 && IsWhite(s[|s| - 1]) {
      var r := TrimEnd(s[..|s| - 1]);
      assert TrimEnd(s) == r;
      TrimEndShape(s[..|s| - 1]);
      DropLastSlices(s, |r|);
      AllWhiteAppend(s[..|s| - 1][|r|..], [s[|s| - 1]]);
    }
  }

  lemma AllWhiteAppend(a: string, b: string)
    requires AllWhite(a) && AllWhite(b)
    ensures AllWhite(a + b)
  {
  }

  lemma DropFirstSlices<T>(s: seq<T>, k: nat)
    requires 1 <= |s| && k <= |s| - 1
    ensures s[1..][|s| - 1 - k..] == s[|s| - k..]
    ensures s[..|s| - k] == [s[0]] + s[1..][..|s| - 1 - k]
  {
  }

  lemma DropLastSlices<T>(s: seq<T>, k: nat)
    requires 1 <= |s| && k <= |s| - 1
    ensures s[..|s| - 1][..k] == s[..k]
    ensures s[k..] == s[..|s| - 1][k..] + [s[|s| - 1]]
  {
  }

  /** `trim`: drops white space at both ends. */
  function Trim(s: string): (r: string)
  {
    TrimEnd(TrimStart(s))
  }

  /** A string with no white space at either end. */
  predicate IsTrimmed(s: string)
  {
    s == [] || (!IsWhite(s[0]) && !IsWhite(s[|s| - 1]))
  }

  lemma TrimTrimmed(s: string)
    ensures IsTrimmed(Trim(s))
  {
    TrimShape(s);
  }

  /** What `trim` yields: the string stripped of an all-white prefix and an
      all-white suffix, with no white space left at either end. */
  lemma TrimShape(s: string)
    ensures IsTrimmed(Trim(s))
    ensures exists a :: 0 <= a <= |s| - |Trim(s)| && Trim(s) == s[a..a + |Trim(s)|]
                         && AllWhite(s[..a]) && AllWhite(s[a + |Trim(s)|..])
  {
    var t := TrimStart(s);
    var r := TrimEnd(t);
    var a := |s| - |t|;
    TrimStartShape(s);
    TrimEndShape(t);
    PrefixOfSuffix(s, a, t, r);
    if r != [] {
      assert r[0] == t[0];
    }
    assert AllWhite(s[..a]) && AllWhite(s[a + |r|..]);
    assert 0 <= a <= |s| - |r| && r == s[a..a + |r|];
  }

  /** A prefix `r` of the suffix `t` of `s` that starts at `a`. */
  lemma PrefixOfSuffix<T>(s: seq<T>, a: nat, t: seq<T>, r: seq<T>)
    requires a <= |s| && t == s[a..]
    requires |r| <= |t| && r == t[..|r|]
    ensures r == s[a..a + |r|]
    ensures s[a + |r|..] == t[|r|..]
  {
  }

  /** A trimmed string is left alone by `trim`. */
  lemma TrimOfTrimmed(s: string)
    requires IsTrimmed(s)
    ensures Trim(s) == s
  {
  }

  lemma TrimIdempotent(s: string)
    ensures Trim(Trim(s)) == Trim(s)
  {
    TrimShape(s);
    TrimOfTrimmed(Trim(s));
  }

  /** `trim` yields "" exactly for all-white input. */
  lemma {:induction false} TrimEmptyIff(s: string)
    ensures Trim(s) == [] <==> AllWhite(s)
  {
    var t := TrimStart(s);
    TrimStartShape(s);
    TrimEndShape(t);
    if !AllWhite(s) {
      var i :| 0 <= i < |s| && !IsWhite(s[i]);
      assert i >= |s| - |t|;
      assert t[i - (|s| - |t|)] == s[i];
      if |t| > 0 && IsWhite(t[|t| - 1]) {
        assert t[|t| - 1] == s[|s| - 1];
      }
      assert Trim(s) != [];
    }
  }

  lemma {:induction false} TrimStartPadded(w: string, s: string)
    requires AllWhite(w)
    ensures TrimStart(w + s) == TrimStart(s)
    decreases |w|
  {
    if w == [] {
      assert w + s == s;
    } else {
      assert (w + s)[0] == w[0];
      assert (w + s)[1..] == w[1..] + s;
      TrimStartPadded(w[1..], s);
    }
  }

  lemma {:induction false} TrimEndPadded(s: string, w: string)
    requires AllWhite(w)
    ensures TrimEnd(s + w) == TrimEnd(s)
    decreases |w|
  {
    if w == [] {
      assert s + w == s;
    } else {
      assert (s + w)[|s + w| - 1] == w[|w| - 1];
      assert (s + w)[..|s + w| - 1] == s + w[..|w| - 1];
      TrimEndPadded(s, w[..|w| - 1]);
    }
  }

  lemma TrimStartAllWhite(s: string)
    requires AllWhite(s)
    ensures TrimStart(s) == []
  {
  }

  lemma {:induction false} TrimStartAppend(s: string, x: string)
    requires TrimStart(s) != []
    ensures TrimStart(s + x) == TrimStart(s) + x
    decreases |s|
  {
    assert (s + x)[0] == s[0];
    if IsWhite(s[0]) {
      assert (s + x)[1..] == s[1..] + x;
      TrimStartAppend(s[1..], x);
    }
  }

  /** White space added at either end does not change what `trim` yields. */
  lemma TrimPadded(w1: string, s: string, w2: string)
    requires AllWhite(w1) && AllWhite(w2)
    ensures Trim(w1 + s + w2) == Trim(s)
  {
    assert w1 + s + w2 == w1 + (s + w2);
    TrimStartPadded(w1, s + w2);
    var r := TrimStart(s);
    TrimStartShape(s);
    if r == [] {
      assert AllWhite(s + w2);
      TrimStartAllWhite(s + w2);
    } else {
      TrimStartAppend(s, w2);
      TrimEndPadded(r, w2);
    }
  }

  // ---------------------------------------------------------------------
  // Searching
  // ---------------------------------------------------------------------

  predicate OccursAt(s: string, t: string, i: nat)
  {
    i + |t| <= |s| && s[i..i + |t|] == t
  }

  /** `s.indexOf(t, k)`: the first position at or after `k` where `t` occurs. */
  function IndexFrom(s: string, t: string, k: nat): (r: Option<nat>)
    ensures r.Some? ==> k <= r.value && OccursAt(s, t, r.value)
    ensures r.Some? ==> forall j :: k <= j < r.value ==> !OccursAt(s, t, j)
    ensures r.None? ==> forall j :: k <= j ==> !OccursAt(s, t, j)
    decreases |s| - k
  {
    if k + |t| > |s| then None
    else if s[k..k + |t|] == t then Some(k)
    else IndexFrom(s, t, k + 1)
  }

  /** `s.indexOf(t)`, with `None` for -1. */
  function IndexOf(s: string, t: string): Option<nat>
  {
    IndexFrom(s, t, 0)
  }

  /** `s.includes(t)`. */
  predicate Contains(s: string, t: string)
  {
    IndexOf(s, t).Some?
  }

  /** `includes` is true exactly when `t` occurs somewhere in `s`. */
  lemma ContainsIff(s: string, t: string)
    ensures Contains(s, t) <==> exists i: nat :: OccursAt(s, t, i)
  {
  }

  lemma ContainsAt(s: string, t: string, i: nat)
    requires OccursAt(s, t, i)
    ensures Contains(s, t)
  {
  }

  lemma ContainsEmpty(s: string)
    ensures Contains(s, "")
  {
    assert OccursAt(s, "", 0);
  }

  lemma ContainsSelf(s: string)
    ensures Contains(s, s)
  {
    assert OccursAt(s, s, 0);
  }

  lemma ContainsChar(s: string, c: char)
    ensures Contains(s, [c]) <==> c in s
  {
    if c in s {
      var i :| 0 <= i < |s| && s[i] == c;
      assert OccursAt(s, [c], i);
    }
    if Contains(s, [c]) {
      var i := IndexOf(s, [c]).value;
      assert s[i] == s[i..i + 1][0];
    }
  }

  /** Case-insensitive `includes`, as the source writes it:
      `s.toLowerCase().includes(t.toLowerCase())`. */
  predicate ContainsIgnoreCase(s: string, t: string)
  {
    Contains(ToLower(s), ToLower(t))
  }

  /** `s.startsWith(p)`. */
  predicate StartsWith(s: string, p: string)
  {
    |p| <= |s| && s[..|p|] == p
  }

  /** `s.replace(t, '')` with a string pattern: the FIRST occurrence of `t`
      is removed; without one, `s` is returned unchanged. */
  function RemoveFirst(s: string, t: string): (r: string)
    ensures IndexOf(s, t).None? ==> r == s
    ensures IndexOf(s, t).Some? ==> |r| == |s| - |t|
  {
    match IndexOf(s, t)
    case None => s
    case Some(i) => s[..i] + s[i + |t|..]
  }

  // ---------------------------------------------------------------------
  // Filtering characters
  // ---------------------------------------------------------------------

  /** `s.replace(/\D/g, '')`: the digits of `s`, in order. */
  function Digits(s: string): (r: string)
    ensures |r| <= |s|
    ensures AllDigits(r)
    decreases |s|
  {
    if s == [] then []
    else (if IsDigit(s[0]) then [s[0]] else []) + Digits(s[1..])
  }

  lemma {:induction false} DigitsAppend(a: string, b: string)
    ensures Digits(a + b) == Digits(a) + Digits(b)
    decreases |a|
  {
    if a == [] {
      assert a + b == b;
    } else {
      assert (a + b)[0] == a[0];
      assert (a + b)[1..] == a[1..] + b;
      DigitsAppend(a[1..], b);
    }
  }

  lemma {:induction false} DigitsOfDigits(s: string)
    requires AllDigits(s)
    ensures Digits(s) == s
    decreases |s|
  {
    if s != [] {
      DigitsOfDigits(s[1..]);
    }
  }

  lemma DigitsOfNonDigits(s: string)
    requires forall i :: 0 <= i < |s| ==> !IsDigit(s[i])
    ensures Digits(s) == []
    decreases |s|
  {
  }

  /** The number of characters of `s` that belong to `cs`. */
  function Count(s: string, cs: set<char>): (n: nat)
    ensures n <= |s|
    decreases |s|
  {
    if s == [] then 0
    else (if s[0] in cs then 1 else 0) + Count(s[1..], cs)
  }

  lemma {:induction false} CountAppend(a: string, b: string, cs: set<char>)
    ensures Count(a + b, cs) == Count(a, cs) + Count(b, cs)
    decreases |a|
  {
    if a == [] {
      assert a + b == b;
    } else {
      assert (a + b)[0] == a[0];
      assert (a + b)[1..] == a[1..] + b;
      CountAppend(a[1..], b, cs);
    }
  }

  lemma {:induction false} CountZero(s: string, cs: set<char>)
    ensures Count(s, cs) == 0 <==> forall i :: 0 <= i < |s| ==> s[i] !in cs
    decreases |s|
  {
    if s != [] {
      CountZero(s[1..], cs);
      assert forall i :: 1 <= i < |s| ==> s[i] == s[1..][i - 1];
    }
  }

  // ---------------------------------------------------------------------
  // Splitting and joining
  // ---------------------------------------------------------------------

  predicate NoneIn(s: string, cs: set<char>)
  {
    forall i :: 0 <= i < |s| ==> s[i] !in cs
  }

  /** `s.split(sep)` where the separator is any one character of `seps`
      (a single character, or a class such as `/[,;]/`). As in JavaScript,
      the empty string splits into `[""]` and adjacent separators give
      empty pieces: there is always one more piece than separators. */
  function Split(s: string, seps: set<char>): (parts: seq<string>)
    ensures |parts| == Count(s, seps) + 1
    ensures forall i :: 0 <= i < |parts| ==> NoneIn(parts[i], seps)
    decreases |s|
  {
    if s == [] then [[]]
    else
      var rest := Split(s[1..], seps);
      if s[0] in seps then [[]] + rest
      else [[s[0]] + rest[0]] + rest[1..]
  }

  /** `parts.join(sep)`. */
  function Join(parts: seq<string>, sep: string): (r: string)
    decreases |parts|
  {
    if parts == [] then []
    else if |parts| == 1 then parts[0]
    else parts[0] + sep + Join(parts[1..], sep)
  }

  /** Splitting on one character and joining with it gives the input back. */
  lemma {:induction false} JoinSplit(s: string, c: char)
    ensures Join(Split(s, {c}), [c]) == s
    decreases |s|
  {
    if s != [] {
      var rest := Split(s[1..], {c});
      JoinSplit(s[1..], c);
      if s[0] == c {
        assert Split(s, {c}) == [[]] + rest;
        assert ([[]] + rest)[1..] == rest;
      } else {
        var parts := [[s[0]] + rest[0]] + rest[1..];
        if |rest| == 1 {
          assert Join(parts, [c]) == [s[0]] + rest[0];
        } else {
          assert parts[1..] == rest[1..];
          assert Join(rest, [c]) == rest[0] + [c] + Join(rest[1..], [c]);
        }
      }
    }
  }

  /** A string without separators is one piece. */
  lemma {:induction false} SplitNone(s: string, seps: set<char>)
    requires NoneIn(s, seps)
    ensures Split(s, seps) == [s]
    decreases |s|
  {
    if s != [] {
      assert NoneIn(s[1..], seps);
      SplitNone(s[1..], seps);
      assert [s[0]] + s[1..] == s;
    }
  }

  /** Splitting a string that has exactly one separator character. */
  lemma {:induction false} SplitOne(a: string, c: char, b: string)
    requires NoneIn(a, {c})
    ensures Split(a + [c] + b, {c}) == [a] + Split(b, {c})
    decreases |a|
  {
    if a == [] {
      assert a + [c] + b == [c] + b;
      assert ([c] + b)[0] == c;
      assert ([c] + b)[1..] == b;
    } else {
      assert (a + [c] + b)[0] == a[0];
      assert (a + [c] + b)[1..] == a[1..] + [c] + b;
      assert NoneIn(a[1..], {c});
      SplitOne(a[1..], c, b);
      assert [a[0]] + a[1..] == a;
    }
  }

  /** A string with exactly one separator character splits in two. */
  lemma SplitTwo(a: string, c: char, b: string)
    requires NoneIn(a, {c}) && NoneIn(b, {c})
    ensures Split(a + [c] + b, {c}) == [a, b]
  {
    SplitOne(a, c, b);
    SplitNone(b, {c});
  }

  /** Joining pieces free of the separator and splitting again gives the
      pieces back. */
  lemma {:induction false} SplitJoin(xs: seq<string>, c: char)
    requires |xs| > 0
    requires forall i :: 0 <= i < |xs| ==> NoneIn(xs[i], {c})
    ensures Split(Join(xs, [c]), {c}) == xs
    decreases |xs|
  {
    if |xs| == 1 {
      SplitNone(xs[0], {c});
    } else {
      SplitJoin(xs[1..], c);
      SplitOne(xs[0], c, Join(xs[1..], [c]));
      assert xs == [xs[0]] + xs[1..];
    }
  }

  // ---------------------------------------------------------------------
  // Cleaning lists of pieces
  // ---------------------------------------------------------------------

  /** Splitting the last element off a concatenation. */
  lemma LastOfAppend<T>(a: seq<T>, b: seq<T>)
    requires b != []
    ensures (a + b)[..|a + b| - 1] == a + b[..|b| - 1]
    ensures (a + b)[|a + b| - 1] == b[|b| - 1]
  {
  }

  /** `xs.map(x => x.trim()).filter(Boolean)`: the trimmed pieces that are
      not empty, in order. */
  function TrimmedItems(xs: seq<string>): (r: seq<string>)
    ensures |r| <= |xs|
    ensures forall i :: 0 <= i < |r| ==> r[i] != [] && IsTrimmed(r[i])
    decreases |xs|
  {
    if xs == [] then []
    else
      var x := xs[|xs| - 1];
      TrimShape(x);
      TrimmedItems(xs[..|xs| - 1]) + (if Trim(x) != [] then [Trim(x)] else [])
  }

  /** Cleaning is done piece by piece, so it keeps the pieces' order. */
  lemma {:induction false} TrimmedItemsAppend(a: seq<string>, b: seq<string>)
    ensures TrimmedItems(a + b) == TrimmedItems(a) + TrimmedItems(b)
    decreases |b|
  {
    if b == [] {
      assert a + b == a;
    } else {
      var last := if Trim(b[|b| - 1]) != [] then [Trim(b[|b| - 1])] else [];
      LastOfAppend(a, b);
      TrimmedItemsAppend(a, b[..|b| - 1]);
      calc {
        TrimmedItems(a + b);
        TrimmedItems(a + b[..|b| - 1]) + last;
        (TrimmedItems(a) + TrimmedItems(b[..|b| - 1])) + last;
        { ConcatAssoc(TrimmedItems(a), TrimmedItems(b[..|b| - 1]), last); }
        TrimmedItems(a) + (TrimmedItems(b[..|b| - 1]) + last);
        TrimmedItems(a) + TrimmedItems(b);
      }
    }
  }

  /** Pieces that are already trimmed and not empty come through unchanged. */
  lemma {:induction false} TrimmedItemsOfClean(xs: seq<string>)
    requires forall i :: 0 <= i < |xs| ==> xs[i] != [] && IsTrimmed(xs[i])
    ensures TrimmedItems(xs) == xs
    decreases |xs|
  {
    if xs != [] {
      var p, x := xs[..|xs| - 1], xs[|xs| - 1];
      assert xs == p + [x];
      TrimOfTrimmed(x);
      assert forall i :: 0 <= i < |p| ==> p[i] == xs[i];
      TrimmedItemsOfClean(p);
    }
  }

  /** `xs.filter(x => x.trim())`: the pieces that are not blank, untrimmed. */
  function NonBlank(xs: seq<string>): (r: seq<string>)
    ensures |r| <= |xs|
    ensures forall i :: 0 <= i < |r| ==> Trim(r[i]) != []
    decreases |xs|
  {
    if xs == [] then []
    else
      var x := xs[|xs| - 1];
      NonBlank(xs[..|xs| - 1]) + (if Trim(x) != [] then [x] else [])
  }

  lemma {:induction false} NonBlankAppend(a: seq<string>, b: seq<string>)
    ensures NonBlank(a + b) == NonBlank(a) + NonBlank(b)
    decreases |b|
  {
    if b == [] {
      assert a + b == a;
    } else {
      var x := b[|b| - 1];
      var last := if Trim(x) != [] then [x] else [];
      LastOfAppend(a, b);
      NonBlankAppend(a, b[..|b| - 1]);
      calc {
        NonBlank(a + b);
        NonBlank(a + b[..|b| - 1]) + last;
        (NonBlank(a) + NonBlank(b[..|b| - 1])) + last;
        { ConcatAssoc(NonBlank(a), NonBlank(b[..|b| - 1]), last); }
        NonBlank(a) + (NonBlank(b[..|b| - 1]) + last);
        NonBlank(a) + NonBlank(b);
      }
    }
  }

  lemma {:induction false} NonBlankMember(xs: seq<string>, x: string)
    ensures x in NonBlank(xs) <==> x in xs && Trim(x) != []
    decreases |xs|
  {
    if xs != [] {
      var p := xs[..|xs| - 1];
      assert xs == p + [xs[|xs| - 1]];
      NonBlankMember(p, x);
    }
  }

  /** Filtering blanks a second time drops nothing more. */
  lemma {:induction false} NonBlankIdempotent(xs: seq<string>)
    ensures NonBlank(NonBlank(xs)) == NonBlank(xs)
    decreases |xs|
  {
    if xs != [] {
      var p, x := xs[..|xs| - 1], xs[|xs| - 1];
      var nb := NonBlank(p);
      NonBlankIdempotent(p);
      if Trim(x) != [] {
        assert NonBlank(xs) == nb + [x];
        NonBlankAppend(nb, [x]);
        assert [x][..0] == [];
        assert NonBlank([x]) == [x];
      } else {
        assert NonBlank(xs) == nb;
      }
    }
  }

  // ---------------------------------------------------------------------
  // Order-preserving de-duplication (what `Array.from(new Set(xs))` does)
  // ---------------------------------------------------------------------

  predicate NoDups<T(==)>(xs: seq<T>)
  {
    forall i, j :: 0 <= i < j < |xs| ==> xs[i] != xs[j]
  }

  /** The elements of `xs` in the order a `Set` first receives them. */
  function Dedup<T(==)>(xs: seq<T>): (r: seq<T>)
    ensures NoDups(r)
    ensures forall i :: 0 <= i < |r| ==> r[i] in xs
    ensures forall i :: 0 <= i < |xs| ==> xs[i] in r
    ensures |r| <= |xs|
    decreases |xs|
  {
    if xs == [] then []
    else
      var d := Dedup(xs[..|xs| - 1]);
      var x := xs[|xs| - 1];
      if x in d then d else d + [x]
  }

  function ToSet<T(==)>(xs: seq<T>): (s: set<T>)
    ensures forall i :: 0 <= i < |xs| ==> xs[i] in s
    ensures forall x :: x in s ==> x in xs
  {
    set i | 0 <= i < |xs| :: xs[i]
  }

  /** The elements of `ys` that are not in `s`, in order. */
  function Without<T(==)>(ys: seq<T>, s: set<T>): (r: seq<T>)
    ensures forall i :: 0 <= i < |r| ==> r[i] in ys && r[i] !in s
    ensures forall i :: 0 <= i < |ys| ==> ys[i] in s || ys[i] in r
    decreases |ys|
  {
    if ys == [] then []
    else
      var w := Without(ys[..|ys| - 1], s);
      var y := ys[|ys| - 1];
      if y in s then w else w + [y]
  }

  /** Inserting `xs` and then `ys` into a `Set`: the first insertions keep
      their order and come first, and `ys` adds only what `xs` lacks, in
      its own first-occurrence order. */
  lemma DedupSnoc<T>(xs: seq<T>, y: T)
    ensures Dedup(xs + [y]) == if y in xs then Dedup(xs) else Dedup(xs) + [y]
  {
    assert (xs + [y])[..|xs + [y]| - 1] == xs;
    assert (xs + [y])[|xs + [y]| - 1] == y;
    if y in xs {
      var i :| 0 <= i < |xs| && xs[i] == y;
      assert y in Dedup(xs);
    }
  }

  lemma WithoutSnoc<T>(ys: seq<T>, y: T, s: set<T>)
    ensures Without(ys + [y], s) == if y in s then Without(ys, s) else Without(ys, s) + [y]
  {
    assert (ys + [y])[..|ys + [y]| - 1] == ys;
    assert (ys + [y])[|ys + [y]| - 1] == y;
  }

  /** A non-empty sequence is its front followed by its last element. */
  lemma FrontLast<T>(s: seq<T>)
    requires s != []
    ensures s == s[..|s| - 1] + [s[|s| - 1]]
  {
  }

  /** A prefix one longer is the prefix and the next element. */
  lemma PrefixSnoc<T>(s: seq<T>, i: nat)
    requires i < |s|
    ensures s[..i + 1] == s[..i] + [s[i]]
  {
  }

  lemma ConcatAssoc<T>(a: seq<T>, b: seq<T>, c: seq<T>)
    ensures a + (b + c) == (a + b) + c
  {
  }

  lemma InWithout<T>(xs: seq<T>, ys: seq<T>, y: T)
    requires y !in ToSet(xs)
    ensures y in xs + ys <==> y in Without(ys, ToSet(xs))
  {
    var w := Without(ys, ToSet(xs));
    if y in xs + ys {
      var i :| 0 <= i < |xs + ys| && (xs + ys)[i] == y;
      assert ys[i - |xs|] == y;
    }
    if y in w {
      var i :| 0 <= i < |w| && w[i] == y;
      assert y in ys;
    }
  }

  lemma {:induction false} DedupAppend<T>(xs: seq<T>, ys: seq<T>)
    ensures Dedup(xs + ys) == Dedup(xs) + Dedup(Without(ys, ToSet(xs)))
    decreases |ys|
  {
    var X := ToSet(xs);
    if ys == [] {
      assert xs + ys == xs;
    } else {
      var ys' := ys[..|ys| - 1];
      var y := ys[|ys| - 1];
      assert ys == ys' + [y];
      assert xs + ys == (xs + ys') + [y];
      DedupAppend(xs, ys');
      var w' := Without(ys', X);
      DedupSnoc(xs + ys', y);
      WithoutSnoc(ys', y, X);
      if y in X {
        assert y in xs;
        assert y in xs + ys';
        assert Dedup(xs + ys) == Dedup(xs + ys');
        assert Without(ys, X) == w';
      } else {
        DedupSnoc(w', y);
        InWithout(xs, ys', y);
        assert Without(ys, X) == w' + [y];
        if y in w' {
          assert Dedup(xs + ys) == Dedup(xs + ys');
          assert Dedup(w' + [y]) == Dedup(w');
        } else {
          assert Dedup(xs + ys) == Dedup(xs + ys') + [y];
          assert Dedup(w' + [y]) == Dedup(w') + [y];
          ConcatAssoc(Dedup(xs), Dedup(w'), [y]);
        }
      }
    }
  }

  lemma DedupMember<T>(xs: seq<T>, x: T)
    ensures x in Dedup(xs) <==> x in xs
  {
    if x in xs {
      var i :| 0 <= i < |xs| && xs[i] == x;
    }
    if x in Dedup(xs) {
      var i :| 0 <= i < |Dedup(xs)| && Dedup(xs)[i] == x;
    }
  }

  /** Adding to a `Set` appends only what it does not hold yet. */
  lemma DedupAdd<T>(xs: seq<T>, y: T)
    ensures Dedup(xs + [y]) == if y in Dedup(xs) then Dedup(xs) else Dedup(xs) + [y]
  {
    DedupSnoc(xs, y);
    DedupMember(xs, y);
  }

  /** A duplicate-free list is its own de-duplication. */
  lemma {:induction false} DedupOfNoDups<T>(xs: seq<T>)
    requires NoDups(xs)
    ensures Dedup(xs) == xs
    decreases |xs|
  {
    if xs != [] {
      DedupOfNoDups(xs[..|xs| - 1]);
    }
  }
}

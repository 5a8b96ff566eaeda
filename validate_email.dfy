/** E-mail helpers of `src/utils/validateEmail.ts`. */
module ValidateEmail {
  import opened Wrappers
  import opened Strings

  /** A non-empty run of characters that are neither white space nor '@':
      the regex fragment `[^\s@]+`. */
  predicate Plain(s: string)
  {
    |s| > 0 && forall i :: 0 <= i < |s| ==> !IsWhite(s[i]) && s[i] != '@'
  }

  /** `validateEmail`: the test of `/^[^\s@]+@[^\s@]+\.[^\s@]+$/`, read as
      "some '@' at i and some '.' at j > i split the string into three
      plain runs". */
  predicate ValidateEmail(email: string)
  {
    exists i, j :: 0 <= i < j < |email| && email[i] == '@' && email[j] == '.'
      && Plain(email[..i]) && Plain(email[i + 1..j]) && Plain(email[j + 1..])
  }

  /** `getEmailDomain`: `email.split('@')[1]`, which is `undefined` (here
      `None`) when there is no '@'. The `catch` branch is unreachable:
      `split` on a string never throws. */
  function GetEmailDomain(email: string): Option<string>
  {
    var parts := Split(email, {'@'});
    if |parts| >= 2 then Some(parts[1]) else None
  }

  /** The reading of the pattern in words: no white space anywhere, exactly
      one '@', something before it, and after it a '.' that is neither the
      first nor the last character. */
  predicate EmailShape(email: string)
  {
    && (forall i :: 0 <= i < |email| ==> !IsWhite(email[i]))
    && var parts := Split(email, {'@'});
    && |parts| == 2
    && parts[0] != []
    && exists j :: 0 < j < |parts[1]| - 1 && parts[1][j] == '.'
  }

  lemma PlainParts(email: string, i: int, j: int)
    requires 0 <= i < j < |email| && email[i] == '@' && email[j] == '.'
    requires Plain(email[..i]) && Plain(email[i + 1..j]) && Plain(email[j + 1..])
    ensures NoneIn(email[..i], {'@'}) && NoneIn(email[i + 1..], {'@'})
    ensures email == email[..i] + ['@'] + email[i + 1..]
    ensures forall k :: 0 <= k < |email| ==> !IsWhite(email[k])
  {
    var a, b, c := email[..i], email[i + 1..j], email[j + 1..];
    assert email[i + 1..] == b + ['.'] + c;
    forall k | 0 <= k < |email|
      ensures !IsWhite(email[k])
    {
      if k < i {
        assert email[k] == a[k];
      } else if i < k < j {
        assert email[k] == b[k - i - 1];
      } else if k > j {
        assert email[k] == c[k - j - 1];
      }
    }
  }

  lemma PlainSlice(s: string, lo: int, hi: int)
    requires 0 <= lo < hi <= |s|
    requires forall k :: lo <= k < hi ==> !IsWhite(s[k]) && s[k] != '@'
    ensures Plain(s[lo..hi])
  {
    assert forall k :: 0 <= k < hi - lo ==> s[lo..hi][k] == s[lo + k];
  }

  lemma ValidImpliesShape(email: string)
    requires ValidateEmail(email)
    ensures EmailShape(email)
  {
    var i, j :| 0 <= i < j < |email| && email[i] == '@' && email[j] == '.'
      && Plain(email[..i]) && Plain(email[i + 1..j]) && Plain(email[j + 1..]);
    PlainParts(email, i, j);
    var a, b := email[..i], email[i + 1..];
    SplitTwo(a, '@', b);
    var parts := Split(email, {'@'});
    assert parts == [a, b];
    assert |email[i + 1..j]| > 0 && |email[j + 1..]| > 0;
    assert parts[1][j - i - 1] == '.';
  }

  lemma ShapeImpliesValid(email: string)
    requires EmailShape(email)
    ensures ValidateEmail(email)
  {
    var parts := Split(email, {'@'});
    var a, d := parts[0], parts[1];
    var j :| 0 < j < |d| - 1 && d[j] == '.';
    JoinSplit(email, '@');
    assert email == a + ['@'] + d;
    var i := |a|;
    assert NoneIn(a, {'@'}) && NoneIn(d, {'@'});
    OnlyAt(email, a, d);
    assert email[i] == '@';
    assert email[i + 1 + j] == d[j] == '.';
    PlainSlice(email, 0, i);
    PlainSlice(email, i + 1, i + 1 + j);
    PlainSlice(email, i + 2 + j, |email|);
    assert email[..i] == email[0..i];
  }

  /** Around a single joining '@' there is no other '@'. */
  lemma OnlyAt(email: string, a: string, d: string)
    requires email == a + ['@'] + d
    requires NoneIn(a, {'@'}) && NoneIn(d, {'@'})
    ensures forall k :: 0 <= k < |email| && k != |a| ==> email[k] != '@'
  {
    forall k | 0 <= k < |email| && k != |a|
      ensures email[k] != '@'
    {
      if k < |a| {
        assert email[k] == a[k];
      } else {
        assert email[k] == d[k - |a| - 1];
      }
    }
  }

  /** The pattern accepts exactly the strings of that shape. */
  lemma ValidateEmailIff(email: string)
    ensures ValidateEmail(email) <==> EmailShape(email)
  {
    if ValidateEmail(email) {
      ValidImpliesShape(email);
    }
    if EmailShape(email) {
      ShapeImpliesValid(email);
    }
  }

  /** A valid address has exactly one '@'. */
  lemma ValidEmailHasOneAt(email: string)
    requires ValidateEmail(email)
    ensures Count(email, {'@'}) == 1
  {
    ValidateEmailIff(email);
  }

  /** For a valid address the domain is everything after the '@': it is
      non-empty, holds no '@' and contains a '.'. */
  lemma ValidEmailDomain(email: string)
    requires ValidateEmail(email)
    ensures GetEmailDomain(email).Some?
    ensures var d := GetEmailDomain(email).value;
      && 0 < |d| < |email|
      && email[|email| - |d| - 1] == '@' && email[|email| - |d|..] == d
      && '@' !in d && '.' in d
  {
    ValidateEmailIff(email);
    var parts := Split(email, {'@'});
    JoinSplit(email, '@');
    assert email == parts[0] + ['@'] + parts[1];
    var j :| 0 < j < |parts[1]| - 1 && parts[1][j] == '.';
    assert NoneIn(parts[1], {'@'});
  }

  /** Without an '@' there is no second piece: the result is `undefined`. */
  lemma NoAtNoDomain(email: string)
    requires '@' !in email
    ensures GetEmailDomain(email).None?
  {
    SplitNone(email, {'@'});
  }
}

/** Phone-number helpers of `src/utils/formatPhone.ts`: a US-style
    formatter and a ten-digit validity check. */
module FormatPhone {
  import opened Strings

  /** `formatPhoneNumber`: when the input holds exactly ten digits (after
      every non-digit is dropped) they are laid out as "(ddd) ddd-dddd";
      any other input is returned unchanged. The `try`/`catch` around the
      body cannot fire: `replace` and `match` on a string do not throw. */
  function FormatPhoneNumber(phone: string): string
  {
    var d := Digits(phone);
    if |d| == 10 then "(" + d[..3] + ") " + d[3..6] + "-" + d[6..] else phone
  }

  /** `validatePhoneNumber`: exactly ten digits. */
  predicate ValidatePhoneNumber(phone: string)
  {
    |Digits(phone)| == 10
  }

  /** The digits of a string built from digit runs and separator literals
      are the digit runs, concatenated. */
  lemma DigitsOfLayout(d: string)
    requires |d| == 10 && AllDigits(d)
    ensures Digits("(" + d[..3] + ") " + d[3..6] + "-" + d[6..]) == d
  {
    var a, b, c := d[..3], d[3..6], d[6..];
    DigitsOfDigits(a);
    DigitsOfDigits(b);
    DigitsOfDigits(c);
    DigitsOfNonDigits("(");
    DigitsOfNonDigits(") ");
    DigitsOfNonDigits("-");
    var x1 := "(" + a;
    DigitsAppend("(", a);
    assert Digits(x1) == a;
    var x2 := x1 + ") ";
    DigitsAppend(x1, ") ");
    assert Digits(x2) == a;
    var x3 := x2 + b;
    DigitsAppend(x2, b);
    var x4 := x3 + "-";
    DigitsAppend(x3, "-");
    assert Digits(x4) == a + b;
    DigitsAppend(x4, c);
    assert a + b + c == d;
  }

  /** Ten digits are formatted as "(d0d1d2) d3d4d5-d6d7d8d9": fourteen
      characters, the digits in their original order at fixed places. */
  lemma FormatTenDigits(phone: string)
    requires ValidatePhoneNumber(phone)
    ensures var r, d := FormatPhoneNumber(phone), Digits(phone);
      && |r| == 14
      && r[0] == '(' && r[1..4] == d[..3] && r[4..6] == ") "
      && r[6..9] == d[3..6] && r[9] == '-' && r[10..] == d[6..]
  {
    var d := Digits(phone);
    Pieces("(", d[..3], ") ", d[3..6], "-", d[6..]);
  }

  /** Where each piece of a six-piece concatenation sits. */
  lemma Pieces<T>(p: seq<T>, a: seq<T>, q: seq<T>, b: seq<T>, m: seq<T>, c: seq<T>)
    ensures var r := p + a + q + b + m + c;
      var i1 := |p|; var i2 := i1 + |a|; var i3 := i2 + |q|; var i4 := i3 + |b|; var i5 := i4 + |m|;
      && |r| == i5 + |c|
      && r[..i1] == p && r[i1..i2] == a && r[i2..i3] == q
      && r[i3..i4] == b && r[i4..i5] == m && r[i5..] == c
  {
  }

  /** Any digit count other than ten leaves the input as it was. */
  lemma FormatOtherCounts(phone: string)
    requires !ValidatePhoneNumber(phone)
    ensures FormatPhoneNumber(phone) == phone
  {
  }

  /** Formatting keeps the digit sequence. */
  lemma FormatKeepsDigits(phone: string)
    ensures Digits(FormatPhoneNumber(phone)) == Digits(phone)
  {
    var d := Digits(phone);
    if |d| == 10 {
      DigitsOfLayout(d);
    }
  }

  /** Formatting keeps validity: validate(format(s)) == validate(s). */
  lemma ValidateAfterFormat(phone: string)
    ensures ValidatePhoneNumber(FormatPhoneNumber(phone)) == ValidatePhoneNumber(phone)
  {
    FormatKeepsDigits(phone);
  }

  /** Formatting twice is formatting once. */
  lemma FormatIdempotent(phone: string)
    ensures FormatPhoneNumber(FormatPhoneNumber(phone)) == FormatPhoneNumber(phone)
  {
    FormatKeepsDigits(phone);
  }
}

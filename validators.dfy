/** The five field checks the contact form's submit handler applies, each a
    predicate on the field's current value. */
module Validators {
  import opened Text

  /** Name: the trimmed value split on `' '` has at least two pieces. */
  predicate NameValid(value: string) {
    |Split(Trim(value), ' ')| >= 2
  }

  /** Company: the trimmed value is not empty. */
  predicate CompanyValid(value: string) {
    Trim(value) != []
  }

  /** A character of the class `[^\s@]`. */
  predicate EmailChar(c: char) {
    !IsSpace(c) && c != '@'
  }

  predicate AllEmailChars(s: string) {
    forall k | 0 <= k < |s| :: EmailChar(s[k])
  }

  /** Whether `t` matches `^[^\s@]+@[^\s@]+\.[^\s@]+$`: three non-empty runs
      of `[^\s@]`, the first two separated by `@` at `i`, the last two by `.`
      at `j`. */
  predicate EmailPattern(t: string) {
    exists i, j | 0 < i && i + 1 < j && j + 1 < |t| ::
      t[i] == '@' && t[j] == '.' &&
      AllEmailChars(t[..i]) && AllEmailChars(t[i + 1..j]) && AllEmailChars(t[j + 1..])
  }

  /** E-mail: the trimmed value matches the pattern. */
  predicate EmailValid(value: string) {
    EmailPattern(Trim(value))
  }

  /** Phone: the value holds at least ten digits. */
  predicate PhoneValid(value: string) {
    |Digits(value)| >= 10
  }

  /** Message: the trimmed value is at least twenty UTF-16 code units
      long. */
  predicate MessageValid(value: string) {
    Utf16Length(Trim(value)) >= 20
  }

  /** The name check passes exactly when the trimmed value contains a
      space character; tabs or other whitespace between words do not count. */
  lemma NameValidIff(value: string)
    ensures NameValid(value) <==> ' ' in Trim(value)
  {
    SplitJoin(Trim(value), ' ');
    CountPositive(Trim(value), ' ');
  }

  /** A passing name has a non-empty first piece and a non-empty last piece:
      trimming guarantees it neither starts nor ends with a space. */
  lemma NameValidHasFirstAndLast(value: string)
    requires NameValid(value)
    ensures var parts := Split(Trim(value), ' ');
      parts[0] != [] && parts[|parts| - 1] != []
  {
    var t := Trim(value);
    NameValidIff(value);
    TrimEnds(value);
    assert t != [];
    assert IsSpace(' ');
    SplitEnds(t, ' ');
  }

  /** A value without whitespace around it passes the name check exactly
      when it contains a space. */
  lemma NameValidUnpadded(s: string)
    requires s != [] && !IsSpace(s[0]) && !IsSpace(s[|s| - 1])
    ensures NameValid(s) <==> ' ' in s
  {
    TrimStartNoSpaceHead(s);
    TrimEndNoSpaceTail(s);
    NameValidIff(s);
  }

  /** A single word fails the name check. */
  lemma SingleWordFailsName()
    ensures !NameValid("Ana")
  {
    NameValidUnpadded("Ana");
  }

  /** Two words separated by a tab fail the name check. */
  lemma TabSeparatedFailsName()
    ensures !NameValid("Ana\tSilva")
  {
    NameValidUnpadded("Ana\tSilva");
  }

  /** Two words separated by a space pass the name check. */
  lemma SpaceSeparatedPassesName()
    ensures NameValid("Ana Silva")
  {
    NameValidUnpadded("Ana Silva");
    assert "Ana Silva"[3] == ' ';
  }

  /** The company check passes exactly when the value has a character that
      is not whitespace. */
  lemma CompanyValidIff(value: string)
    ensures CompanyValid(value) <==> exists k | 0 <= k < |value| :: !IsSpace(value[k])
  {
    var t := Trim(value);
    TrimSlice(value);
    var i := Leading(value);
    if t != [] {
      TrimEnds(value);
      assert value[i] == t[0];
    } else {
      forall k | 0 <= k < |value| ensures IsSpace(value[k]) {
        if k < i {
          assert value[k] == value[..i][k];
        } else {
          assert value[k] == value[i..][k - i];
        }
      }
    }
  }

  /** `t` reads as an address: no whitespace, exactly one `@`, something
      before it, and after it a part with a `.` that is neither its first
      nor its last character. */
  predicate WellFormedAddress(t: string) {
    AllNoSpace(t) && Count(t, '@') == 1 &&
    exists i | 0 < i < |t| :: t[i] == '@' && HasInnerDot(t[i + 1..])
  }

  predicate AllNoSpace(s: string) {
    forall k | 0 <= k < |s| :: !IsSpace(s[k])
  }

  predicate HasInnerDot(d: string) {
    exists k | 0 < k < |d| - 1 :: d[k] == '.'
  }

  lemma {:induction false} CountZero(s: string, c: char)
    requires forall k | 0 <= k < |s| :: s[k] != c
    ensures Count(s, c) == 0
  {
    CountPositive(s, c);
  }

  /** With a single occurrence of `c`, every occurrence is that one. */
  lemma OnlyOccurrence(t: string, c: char, i: nat, m: nat)
    requires Count(t, c) == 1 && i < |t| && m < |t| && t[i] == c && t[m] == c
    ensures i == m
  {
    assert t == t[..i] + ([t[i]] + t[i + 1..]);
    CountAppend(t[..i], [t[i]] + t[i + 1..], c);
    CountAppend([t[i]], t[i + 1..], c);
    if m < i {
      assert t[..i][m] == c;
      CountPositive(t[..i], c);
    } else if m > i {
      assert t[i + 1..][m - i - 1] == c;
      CountPositive(t[i + 1..], c);
    }
  }

  /** Three `@`-free runs joined by one `@` and one other character hold
      exactly one `@`. */
  lemma CountOfPieces(a: string, at: char, b: string, dot: char, c: string)
    requires AllEmailChars(a) && AllEmailChars(b) && AllEmailChars(c)
    requires at == '@' && dot != '@'
    ensures Count(a + [at] + b + [dot] + c, '@') == 1
  {
    CountZero(a, '@');
    CountZero(b, '@');
    CountZero(c, '@');
    CountAppend(a + [at] + b + [dot], c, '@');
    CountAppend(a + [at] + b, [dot], '@');
    CountAppend(a + [at], b, '@');
    CountAppend(a, [at], '@');
  }

  lemma NoSpaceOfPieces(t: string, i: nat, j: nat)
    requires 0 < i && i + 1 < j && j + 1 < |t| && t[i] == '@' && t[j] == '.'
    requires AllEmailChars(t[..i]) && AllEmailChars(t[i + 1..j]) && AllEmailChars(t[j + 1..])
    ensures AllNoSpace(t)
  {
    var a, b, c := t[..i], t[i + 1..j], t[j + 1..];
    forall k | 0 <= k < |t| ensures !IsSpace(t[k]) {
      if k < i {
        assert t[k] == a[k];
      } else if i < k < j {
        assert t[k] == b[k - i - 1];
      } else if j < k {
        assert t[k] == c[k - j - 1];
      }
    }
  }

  lemma PiecesMakeAddress(t: string, i: nat, j: nat)
    requires 0 < i && i + 1 < j && j + 1 < |t| && t[i] == '@' && t[j] == '.'
    requires AllEmailChars(t[..i]) && AllEmailChars(t[i + 1..j]) && AllEmailChars(t[j + 1..])
    ensures WellFormedAddress(t)
  {
    NoSpaceOfPieces(t, i, j);
    var a, b, c := t[..i], t[i + 1..j], t[j + 1..];
    assert t[..j] == a + [t[i]] + b;
    assert t == t[..j] + [t[j]] + c;
    CountOfPieces(a, t[i], b, t[j], c);
    var d := t[i + 1..];
    assert d[j - i - 1] == '.';
    assert HasInnerDot(d);
  }

  lemma PatternImpliesAddress(t: string)
    requires EmailPattern(t)
    ensures WellFormedAddress(t)
  {
    var i, j :| 0 < i && i + 1 < j && j + 1 < |t| &&
      t[i] == '@' && t[j] == '.' &&
      AllEmailChars(t[..i]) && AllEmailChars(t[i + 1..j]) && AllEmailChars(t[j + 1..]);
    PiecesMakeAddress(t, i, j);
  }

  lemma AddressImpliesPattern(t: string)
    requires WellFormedAddress(t)
    ensures EmailPattern(t)
  {
    var i :| 0 < i < |t| && t[i] == '@' && HasInnerDot(t[i + 1..]);
    var d := t[i + 1..];
    var k :| 0 < k < |d| - 1 && d[k] == '.';
    var j := i + 1 + k;
    assert t[j] == '.';
    forall m | 0 <= m < |t| && m != i ensures EmailChar(t[m]) {
      if t[m] == '@' {
        OnlyOccurrence(t, '@', i, m);
      }
    }
    var a, b, c := t[..i], t[i + 1..j], t[j + 1..];
    forall m | 0 <= m < |a| ensures EmailChar(a[m]) {
      assert a[m] == t[m];
    }
    forall m | 0 <= m < |b| ensures EmailChar(b[m]) {
      assert b[m] == t[i + 1 + m];
    }
    forall m | 0 <= m < |c| ensures EmailChar(c[m]) {
      assert c[m] == t[j + 1 + m];
    }
  }

  /** The e-mail pattern read as a description of an address, both ways. */
  lemma EmailPatternIff(t: string)
    ensures EmailPattern(t) <==> WellFormedAddress(t)
  {
    if EmailPattern(t) {
      PatternImpliesAddress(t);
    }
    if WellFormedAddress(t) {
      AddressImpliesPattern(t);
    }
  }

  /** The e-mail check passes exactly when the trimmed value reads as an
      address: no whitespace, one `@` with something before it, and a `.`
      inside the part after it. */
  lemma EmailValidIff(value: string)
    ensures EmailValid(value) <==> WellFormedAddress(Trim(value))
  {
    EmailPatternIff(Trim(value));
  }

  /** Masking aside, the phone check sees every digit, wherever it stands:
      adding non-digit characters anywhere never changes its verdict. */
  lemma PhoneValidIgnoresNonDigits(a: string, b: string, junk: string)
    requires forall k | 0 <= k < |junk| :: !IsDigit(junk[k])
    ensures PhoneValid(a + junk + b) <==> PhoneValid(a + b)
  {
    DigitsAppend(a + junk, b);
    DigitsAppend(a, junk);
    DigitsOfNonDigits(junk);
    DigitsAppend(a, b);
  }

  /** The message check ignores whitespace around the text. */
  lemma MessageValidIgnoresPadding(p: string, value: string, q: string)
    requires AllSpace(p) && AllSpace(q)
    ensures MessageValid(p + value + q) <==> MessageValid(value)
  {
    TrimIgnoresPadding(p, value, q);
  }
}

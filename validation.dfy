/** The request validators shared by the controllers: the e-mail and mobile
    regular expressions, the password length rule and the ordered required-field
    check. Each regular expression is given twice: as the scanner that decides it
    and as a literal reading of the pattern, and a lemma proves the two agree. */
module Validation {
  import opened Js

  /** A character of the class `[^\s@]`. */
  predicate Plain(c: char) {
    !IsWhitespace(c) && c != '@'
  }

  predicate AllPlain(s: string) {
    forall i :: 0 <= i < |s| ==> Plain(s[i])
  }

  /** A `.` with at least one character on each side. */
  predicate HasInnerDot(d: string) {
    exists j :: 0 < j < |d| - 1 && d[j] == '.'
  }

  /** `validateEmail`: the text before the first `@` is a non-empty run of plain
      characters, and the text after it is plain and holds an inner dot. */
  function ValidEmail(email: string): bool {
    var at := IndexOf(email, '@');
    at > 0 && AllPlain(email[..at]) && AllPlain(email[at + 1..]) && HasInnerDot(email[at + 1..])
  }

  /** `/^[^\s@]+@[^\s@]+\.[^\s@]+$/` read literally: three non-empty plain runs
      separated by `@` and then `.`. */
  ghost predicate MatchesEmailPattern(s: string) {
    exists i, j ::
      0 < i && i + 1 < j && j + 1 < |s| && s[i] == '@' && s[j] == '.'
      && AllPlain(s[..i]) && AllPlain(s[i + 1..j]) && AllPlain(s[j + 1..])
  }

  lemma AllPlainSlice(s: string, a: nat, b: nat)
    requires a <= b <= |s| && AllPlain(s)
    ensures AllPlain(s[a..b])
  {
    assert forall k :: 0 <= k < b - a ==> s[a..b][k] == s[a + k];
  }

  lemma ValidEmailMatches(s: string)
    requires ValidEmail(s)
    ensures MatchesEmailPattern(s)
  {
    var at := IndexOf(s, '@');
    var d := s[at + 1..];
    var j :| 0 < j < |d| - 1 && d[j] == '.';
    AllPlainSlice(d, 0, j);
    AllPlainSlice(d, j + 1, |d|);
    assert d[..j] == s[at + 1..at + 1 + j];
    assert d[j + 1..] == s[at + 1 + j + 1..];
    assert s[at + 1 + j] == '.';
  }

  lemma PatternIsValidEmail(s: string, i: nat, j: nat)
    requires 0 < i && i + 1 < j && j + 1 < |s| && s[i] == '@' && s[j] == '.'
    requires AllPlain(s[..i]) && AllPlain(s[i + 1..j]) && AllPlain(s[j + 1..])
    ensures ValidEmail(s)
  {
    assert '@' !in s[..i] by {
      assert forall k :: 0 <= k < i ==> Plain(s[..i][k]);
    }
    IndexOfFirst(s, '@', i);
    var d := s[i + 1..];
    forall k | 0 <= k < |d| ensures Plain(d[k]) {
      if k < j - i - 1 {
        assert d[k] == s[i + 1..j][k];
      } else if k > j - i - 1 {
        assert d[k] == s[j + 1..][k - (j - i)];
      } else {
        assert d[k] == '.';
      }
    }
    assert d[j - i - 1] == '.';
  }

  /** The scanner accepts exactly the strings the regular expression matches. */
  lemma ValidEmailIffPattern(s: string)
    ensures ValidEmail(s) <==> MatchesEmailPattern(s)
  {
    if ValidEmail(s) {
      ValidEmailMatches(s);
    }
    if MatchesEmailPattern(s) {
      var i, j :| 0 < i && i + 1 < j && j + 1 < |s| && s[i] == '@' && s[j] == '.'
        && AllPlain(s[..i]) && AllPlain(s[i + 1..j]) && AllPlain(s[j + 1..]);
      PatternIsValidEmail(s, i, j);
    }
  }

  lemma NoAtInPlain(s: string)
    requires AllPlain(s)
    ensures multiset(s)['@'] == 0
  {
    assert forall k :: 0 <= k < |s| ==> s[k] != '@';
    assert '@' !in s;
  }

  /** Whatever the rest of the string, `validateEmail` rejects any string holding
      a white-space character, and any string without exactly one `@`. */
  lemma EmailRejections(s: string)
    ensures (exists k :: 0 <= k < |s| && IsWhitespace(s[k])) ==> !ValidEmail(s)
    ensures multiset(s)['@'] != 1 ==> !ValidEmail(s)
  {
    if ValidEmail(s) {
      var at := IndexOf(s, '@');
      assert s == s[..at] + [s[at]] + s[at + 1..];
      NoAtInPlain(s[..at]);
      NoAtInPlain(s[at + 1..]);
      assert multiset(s) == multiset(s[..at]) + multiset{'@'} + multiset(s[at + 1..]);
      forall k | 0 <= k < |s| ensures !IsWhitespace(s[k]) {
        if k < at {
          assert s[k] == s[..at][k];
        } else if k > at {
          assert s[k] == s[at + 1..][k - at - 1];
        }
      }
    }
  }

  /** `validatePassword`: the value is a string whose JavaScript length (in UTF-16
      code units) is at least 6. */
  function ValidPassword(v: Value): bool {
    v.Str? && Utf16Length(v.s) >= 6
  }

  /** A string of at least six characters always passes; a string of at most two
      characters never does; for text in the Basic Multilingual Plane the rule is
      exactly "at least six characters". */
  lemma ValidPasswordLength(s: string)
    ensures |s| >= 6 ==> ValidPassword(Str(s))
    ensures |s| <= 2 ==> !ValidPassword(Str(s))
    ensures InBmp(s) ==> (ValidPassword(Str(s)) <==> |s| >= 6)
  {
    Utf16LengthBounds(s);
  }

  /** A character of the class `[\d\s-]`. */
  predicate MobileChar(c: char) {
    IsDigit(c) || IsWhitespace(c) || c == '-'
  }

  predicate AllMobile(s: string) {
    forall i :: 0 <= i < |s| ==> MobileChar(s[i])
  }

  /** `validateMobile`: after dropping one leading `+`, at least ten characters,
      each a digit, white space or `-`. */
  function ValidMobile(mobile: string): bool {
    var rest := if |mobile| > 0 && mobile[0] == '+' then mobile[1..] else mobile;
    |rest| >= 10 && AllMobile(rest)
  }

  /** `/^\+?[\d\s-]{10,}$/` read literally: either alternative of `\+?` followed
      by ten or more characters of the class. */
  ghost predicate MatchesMobilePattern(s: string) {
    (|s| >= 10 && AllMobile(s))
    || (|s| >= 11 && s[0] == '+' && AllMobile(s[1..]))
  }

  /** Dropping the `+` first never loses a match, because `+` is not in the class. */
  lemma ValidMobileIffPattern(s: string)
    ensures ValidMobile(s) <==> MatchesMobilePattern(s)
  {
    if |s| > 0 && s[0] == '+' {
      assert !MobileChar(s[0]);
    }
  }

  /** A field counts as present unless it is `undefined`, `null`, or a string that
      is empty after `trim()`; so `0`, `false` and other non-strings are present. */
  predicate Present(v: Value) {
    !(v.Undefined? || v.Null? || (v.Str? && Trim(v.s) == ""))
  }

  /** A string field is present exactly when it holds a non-white-space character. */
  lemma PresentString(s: string)
    ensures Present(Str(s)) <==> !AllWhitespace(s)
  {
    TrimEmptyIffBlank(s);
  }

  /** `field.charAt(0).toUpperCase() + field.slice(1)`. */
  function Capitalize(field: string): (r: string)
    ensures |r| == |field|
    ensures |field| > 0 ==> r[0] == AsciiUpper(field[0]) && r[1..] == field[1..]
  {
    if field == "" then "" else [AsciiUpper(field[0])] + field[1..]
  }

  function RequiredMessage(field: string): string {
    Capitalize(field) + " is required"
  }

  /** `checkRequiredFields`: `None` when every listed field is present, otherwise
      the message naming the first field, in list order, that is not. */
  function CheckRequiredFields(data: map<string, Value>, fields: seq<string>): (r: Option<string>)
    ensures r.None? <==> forall i :: 0 <= i < |fields| ==> Present(Get(data, fields[i]))
    ensures r.Some? ==>
      exists k :: 0 <= k < |fields| && !Present(Get(data, fields[k]))
        && (forall i :: 0 <= i < k ==> Present(Get(data, fields[i])))
        && r.value == RequiredMessage(fields[k])
  {
    if fields == [] then None
    else if !Present(Get(data, fields[0])) then Some(RequiredMessage(fields[0]))
    else
      var rest := CheckRequiredFields(data, fields[1..]);
      assert forall i :: 1 <= i < |fields| ==> fields[i] == fields[1..][i - 1];
      if rest.Some? then
        var k :| 0 <= k < |fields[1..]| && !Present(Get(data, fields[1..][k]))
          && (forall i :: 0 <= i < k ==> Present(Get(data, fields[1..][i])))
          && rest.value == RequiredMessage(fields[1..][k]);
        assert fields[k + 1] == fields[1..][k];
        assert forall i :: 0 <= i < k + 1 ==> Present(Get(data, fields[i])) by {
          forall i | 0 <= i < k + 1 ensures Present(Get(data, fields[i])) {
            if i > 0 { assert fields[i] == fields[1..][i - 1]; }
          }
        }
        rest
      else
        rest
  }

  /** The first missing field decides the message, whatever follows it. */
  lemma {:induction false} FirstMissingWins(data: map<string, Value>, fields: seq<string>, k: nat)
    requires k < |fields| && !Present(Get(data, fields[k]))
    requires forall i :: 0 <= i < k ==> Present(Get(data, fields[i]))
    ensures CheckRequiredFields(data, fields) == Some(RequiredMessage(fields[k]))
  {
    if k > 0 {
      assert forall i :: 0 <= i < k - 1 ==> fields[1..][i] == fields[i + 1];
      FirstMissingWins(data, fields[1..], k - 1);
    }
  }
}

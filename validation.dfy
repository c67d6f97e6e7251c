/** The form checks of `validate_fields` and the two regular expressions it
    uses, written as predicates over strings. */
module Validation {
  import opened Text

  /** Which check failed; `Accepted` is the `True` return. */
  datatype Verdict = Accepted | EmptyName | InvalidPhone | InvalidEmail

  /** Length of the longest prefix of `s` whose characters all satisfy `p`:
      how far a greedy character-class repetition gets. */
  function Span(s: string, p: char -> bool): (n: nat)
    ensures n <= |s|
    ensures forall i :: 0 <= i < n ==> p(s[i])
    ensures n < |s| ==> !p(s[n])
  {
    if s == [] || !p(s[0]) then 0 else 1 + Span(s[1..], p)
  }

  // ---------------------------------------------------------------------
  // PHONE_RE = ^[+\d][\d\s\-()]{5,}$

  predicate IsPhoneLead(c: char) {
    c == '+' || IsDigit(c)
  }

  predicate IsPhoneChar(c: char) {
    IsDigit(c) || IsSpace(c) || c == '-' || c == '(' || c == ')'
  }

  /** The language of `PHONE_RE`: a `+` or a digit, then at least five
      characters from the class. */
  ghost predicate PhoneShape(s: string) {
    |s| >= 6 && IsPhoneLead(s[0]) && forall i :: 1 <= i < |s| ==> IsPhoneChar(s[i])
  }

  /** `PHONE_RE.match(s)` on a stripped string (so `$` meets the real end):
      the lead character, then the greedy class run must reach the end and
      be at least five long. */
  predicate PhoneMatch(s: string)
  {
    s != [] && IsPhoneLead(s[0]) && Span(s[1..], IsPhoneChar) == |s| - 1 >= 5
  }

  lemma PhoneMatchIff(s: string)
    ensures PhoneMatch(s) <==> PhoneShape(s)
  {
    if PhoneMatch(s) {
      forall i | 1 <= i < |s| ensures IsPhoneChar(s[i]) {
        assert s[1..][i - 1] == s[i];
      }
    }
  }

  // ---------------------------------------------------------------------
  // EMAIL_RE = ^[^@\s]+@[^@\s]+\.[^@\s]+$

  predicate IsEmailChar(c: char) {
    c != '@' && !IsSpace(c)
  }

  /** The language of `EMAIL_RE`: `x@y.z` with `x`, `y`, `z` non-empty and
      every character but the `@` at `a` drawn from `[^@\s]` (which includes
      the `.` at `d`). */
  ghost predicate EmailShapeAt(s: string, a: int, d: int) {
    0 < a && a + 1 < d && d + 1 < |s| && s[a] == '@' && s[d] == '.' &&
    forall k :: 0 <= k < |s| && k != a ==> IsEmailChar(s[k])
  }

  ghost predicate EmailShape(s: string) {
    exists a, d :: EmailShapeAt(s, a, d)
  }

  /** `EMAIL_RE.match(s)` on a stripped string: the local part is the greedy
      run before the first `@`; the domain after it must be one run of class
      characters with a `.` that is neither its first nor its last character
      (the backtracking of `[^@\s]+\.` may pick any such `.`). */
  predicate EmailMatch(s: string)
  {
    var a := Span(s, IsEmailChar);
    0 < a < |s| && s[a] == '@' &&
    var dom := s[a + 1..];
    Span(dom, IsEmailChar) == |dom| && |dom| >= 3 && '.' in dom[1..|dom| - 1]
  }

  lemma EmailMatchIff(s: string)
    ensures EmailMatch(s) <==> EmailShape(s)
  {
    if EmailMatch(s) {
      var a := Span(s, IsEmailChar);
      var dom := s[a + 1..];
      var j :| 0 <= j < |dom| - 2 && dom[1..|dom| - 1][j] == '.';
      var d := a + 2 + j;
      assert dom[1..|dom| - 1][j] == dom[j + 1] == s[d];
      forall k | 0 <= k < |s| && k != a ensures IsEmailChar(s[k]) {
        if k > a { assert s[k] == dom[k - a - 1]; }
      }
      assert EmailShapeAt(s, a, d);
    }
    if EmailShape(s) {
      var a, d :| EmailShapeAt(s, a, d);
      var n := Span(s, IsEmailChar);
      assert n == a;
      var dom := s[a + 1..];
      assert dom[1..|dom| - 1][d - a - 2] == '.';
    }
  }

  /** An address in the shape of `EMAIL_RE` has exactly one `@`. */
  lemma EmailSingleAt(s: string, i: int, j: int)
    requires EmailShape(s)
    requires 0 <= i < |s| && 0 <= j < |s| && s[i] == '@' && s[j] == '@'
    ensures i == j
  {
    var a, d :| EmailShapeAt(s, a, d);
    assert !IsEmailChar(s[i]) && !IsEmailChar(s[j]);
  }

  // ---------------------------------------------------------------------
  // validate_fields

  /** `validate_fields(name, phone, email)`: the name must not be blank; a
      phone and an email are checked (stripped) only when not blank; the
      first failing check in that order is the one reported. */
  function ValidateFields(name: string, phone: string, email: string): (v: Verdict)
    ensures v == EmptyName <==> AllSpace(name)
    ensures v == InvalidPhone <==>
      !AllSpace(name) && !AllSpace(phone) && !PhoneShape(Strip(phone))
    ensures v == InvalidEmail <==>
      !AllSpace(name) && (AllSpace(phone) || PhoneShape(Strip(phone))) &&
      !AllSpace(email) && !EmailShape(Strip(email))
    ensures v == Accepted <==>
      !AllSpace(name) &&
      (AllSpace(phone) || PhoneShape(Strip(phone))) &&
      (AllSpace(email) || EmailShape(Strip(email)))
  {
    PhoneMatchIff(Strip(phone));
    EmailMatchIff(Strip(email));
    if Strip(name) == [] then EmptyName
    else if Strip(phone) != [] && !PhoneMatch(Strip(phone)) then InvalidPhone
    else if Strip(email) != [] && !EmailMatch(Strip(email)) then InvalidEmail
    else Accepted
  }
}

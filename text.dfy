/** Character and string helpers standing in for Python's `str.strip()`,
    `str.lower()`, the regex class `\s` and the `in` operator on strings. */
module Text {

  /** Whitespace as `str.strip()` and the regex class `\s` treat it, restricted
      to ASCII: tab, line feed, vertical tab, form feed, carriage return, the
      four information separators 0x1C-0x1F, and space. */
  predicate IsSpace(c: char) {
    ('\t' <= c <= '\r') || ('\U{1C}' <= c <= '\U{1F}') || c == ' '
  }

  /** The decimal digits matched by `\d` (ASCII only). */
  predicate IsDigit(c: char) {
    '0' <= c <= '9'
  }

  ghost predicate AllSpace(s: string) {
    forall i :: 0 <= i < |s| ==> IsSpace(s[i])
  }

  /** A string with no whitespace at either end, as `strip()` returns. */
  ghost predicate IsStripped(s: string) {
    s == [] || (!IsSpace(s[0]) && !IsSpace(s[|s| - 1]))
  }

  /** Number of whitespace characters `s` starts with. */
  function LeadingSpaces(s: string): (n: nat)
    ensures n <= |s|
    ensures forall i :: 0 <= i < n ==> IsSpace(s[i])
    ensures n < |s| ==> !IsSpace(s[n])
  {
    if s != [] && IsSpace(s[0]) then
      var n := LeadingSpaces(s[1..]);
      assert forall i :: 1 <= i < n + 1 ==> s[i] == s[1..][i - 1];
      n + 1
    else 0
  }

  /** Number of whitespace characters `s` ends with. */
  function TrailingSpaces(s: string): (n: nat)
    ensures n <= |s|
    ensures forall i :: |s| - n <= i < |s| ==> IsSpace(s[i])
    ensures n < |s| ==> !IsSpace(s[|s| - n - 1])
  {
    if s != [] && IsSpace(s[|s| - 1]) then
      var n := TrailingSpaces(s[..|s| - 1]);
      assert forall i :: |s| - 1 - n <= i < |s| - 1 ==> s[i] == s[..|s| - 1][i];
      n + 1
    else 0
  }

  /** `s.strip()`. */
  function Strip(s: string): (r: string)
    ensures IsStripped(r)
    ensures r == [] <==> AllSpace(s)
    ensures IsStripped(s) ==> r == s
  {
    var a := LeadingSpaces(s);
    if a == |s| then [] else
      var e := |s| - TrailingSpaces(s);
      assert a < e;
      var r := s[a..e];
      assert r[0] == s[a] && r[|r| - 1] == s[e - 1];
      assert IsStripped(s) ==> a == 0 && e == |s|;
      r
  }

  /** The decomposition `s == lead + Strip(s) + trail`, with `lead` and
      `trail` all whitespace. */
  lemma StripIsInfix(s: string)
    ensures exists i {:trigger s[..i]} ::
      (0 <= i <= |s| - |Strip(s)| && s[i..i + |Strip(s)|] == Strip(s) &&
       AllSpace(s[..i]) && AllSpace(s[i + |Strip(s)|..]))
  {
    var r := Strip(s);
    var i := LeadingSpaces(s);
    if i == |s| {
      assert AllSpace(s[..i]) && s[i..] == [];
    } else {
      var lead, trail := s[..i], s[i + |r|..];
      assert forall k :: 0 <= k < |lead| ==> lead[k] == s[k];
      assert forall k :: 0 <= k < |trail| ==> trail[k] == s[i + |r| + k];
      assert AllSpace(lead) && AllSpace(trail);
    }
  }

  /** ASCII `lower()` of one character. */
  function LowerChar(c: char): (d: char)
    ensures !('A' <= d <= 'Z')
    ensures ('a' <= c <= 'z' || 'A' <= c <= 'Z') <==> 'a' <= d <= 'z'
  {
    if 'A' <= c <= 'Z' then (c as int + 32) as char else c
  }

  /** `s.lower()`, ASCII letters only. */
  function Lower(s: string): (r: string)
    ensures |r| == |s|
    ensures forall i :: 0 <= i < |s| ==> r[i] == LowerChar(s[i])
  {
    if s == [] then [] else [LowerChar(s[0])] + Lower(s[1..])
  }

  /** `needle` occurs in `hay` at position `i`. */
  ghost predicate OccursAt(needle: string, hay: string, i: int) {
    0 <= i && i + |needle| <= |hay| && hay[i..i + |needle|] == needle
  }

  /** Python's `needle in hay`: some position of `hay` starts a copy of
      `needle`; the empty needle occurs in every string. */
  function Contains(hay: string, needle: string): (r: bool)
    ensures r <==> exists i :: OccursAt(needle, hay, i)
    decreases |hay|
  {
    if |needle| > |hay| then false
    else if hay[..|needle|] == needle then
      assert OccursAt(needle, hay, 0);
      true
    else
      var r := Contains(hay[1..], needle);
      assert r ==> exists i :: OccursAt(needle, hay, i) by {
        if r {
          var j :| OccursAt(needle, hay[1..], j);
          assert hay[1..][j..j + |needle|] == hay[j + 1..j + 1 + |needle|];
          assert OccursAt(needle, hay, j + 1);
        }
      }
      assert (exists i :: OccursAt(needle, hay, i)) ==> r by {
        if exists i :: OccursAt(needle, hay, i) {
          var i :| OccursAt(needle, hay, i);
          assert i != 0;
          assert hay[1..][i - 1..i - 1 + |needle|] == hay[i..i + |needle|];
          assert OccursAt(needle, hay[1..], i - 1);
        }
      }
      r
  }
}

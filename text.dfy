/**
 * The string operations the cleaner applies: Python's `str.upper`,
 * `str.lower` and `str.strip`, and the code-point order Python and numpy use
 * to compare and sort strings.
 *
 * The loader reads the source file as Latin-1, so every character the
 * pipeline sees lies in U+0000..U+00FF; the case mappings below are Python's
 * for exactly that range (including the three Latin-1 letters whose upper
 * case lies outside it, and 'ß', which upper-cases to two letters).
 */
module Text {

  /** Python's `str.isspace` on one character. */
  predicate IsSpace(c: char) {
    var n := c as int;
    (9 <= n <= 13) || (28 <= n <= 32) || n == 0x85 || n == 0xA0
    || n == 0x1680 || (0x2000 <= n <= 0x200A) || n == 0x2028 || n == 0x2029
    || n == 0x202F || n == 0x205F || n == 0x3000
  }

  /** Number of blanks at the front of `s`. */
  function LeadingSpaces(s: string): (n: nat)
    ensures n <= |s|
    ensures forall k :: 0 <= k < n ==> IsSpace(s[k])
    ensures n < |s| ==> !IsSpace(s[n])
  {
    if |s| == 0 || !IsSpace(s[0]) then 0 else 1 + LeadingSpaces(s[1..])
  }

  /** Index where the run of blanks at the back of `s` starts. */
  function TrailingStart(s: string): (m: nat)
    ensures m <= |s|
    ensures forall k :: m <= k < |s| ==> IsSpace(s[k])
    ensures 0 < m ==> !IsSpace(s[m - 1])
  {
    if |s| == 0 || !IsSpace(s[|s| - 1]) then |s| else TrailingStart(s[..|s| - 1])
  }

  /** `str.strip()`: the infix of `s` left after removing blanks at both ends. */
  function Strip(s: string): (r: string)
    ensures LeadingSpaces(s) + |r| <= |s|
    ensures r == s[LeadingSpaces(s)..LeadingSpaces(s) + |r|]
    ensures forall k :: 0 <= k < LeadingSpaces(s) ==> IsSpace(s[k])
    ensures forall k :: LeadingSpaces(s) + |r| <= k < |s| ==> IsSpace(s[k])
    ensures r != [] ==> !IsSpace(r[0]) && !IsSpace(r[|r| - 1])
  {
    var i := LeadingSpaces(s);
    if i == |s| then [] else s[i..TrailingStart(s)]
  }

  /** Stripping a stripped string changes nothing. */
  lemma StripIdempotent(s: string)
    ensures Strip(Strip(s)) == Strip(s)
  {
    var r := Strip(s);
    if r != [] {
      assert LeadingSpaces(r) == 0;
      assert TrailingStart(r) == |r|;
    }
  }

  /** `str.upper()` on one character, for the Latin-1 range. */
  function UpperChar(c: char): string {
    if 'a' <= c <= 'z' || ('\U{E0}' <= c <= '\U{FE}' && c != '\U{F7}') then [(c as int - 32) as char]
    else if c == '\U{DF}' then "SS"
    else if c == '\U{B5}' then ['\U{039C}']
    else if c == '\U{FF}' then ['\U{0178}']
    else [c]
  }

  /** `str.upper()`. */
  function Upper(s: string): string {
    if |s| == 0 then [] else UpperChar(s[0]) + Upper(s[1..])
  }

  /** A character that upper-casing leaves alone. */
  predicate UpperStable(c: char) {
    UpperChar(c) == [c]
  }

  lemma {:induction false} UpperOutputStable(s: string)
    ensures forall k :: 0 <= k < |Upper(s)| ==> UpperStable(Upper(s)[k])
  {
    if |s| > 0 {
      UpperOutputStable(s[1..]);
      var h := UpperChar(s[0]);
      assert forall k :: 0 <= k < |h| ==> UpperStable(h[k]);
      assert Upper(s) == h + Upper(s[1..]);
    }
  }

  lemma {:induction false} UpperOfStable(s: string)
    requires forall k :: 0 <= k < |s| ==> UpperStable(s[k])
    ensures Upper(s) == s
  {
    if |s| > 0 {
      UpperOfStable(s[1..]);
      assert s == [s[0]] + s[1..];
    }
  }

  /** Upper-casing is idempotent. */
  lemma UpperIdempotent(s: string)
    ensures Upper(Upper(s)) == Upper(s)
  {
    UpperOutputStable(s);
    UpperOfStable(Upper(s));
  }

  /** `str.lower()` on one character, for the Latin-1 range. */
  function LowerChar(c: char): char {
    if 'A' <= c <= 'Z' || ('\U{C0}' <= c <= '\U{DE}' && c != '\U{D7}') then (c as int + 32) as char else c
  }

  /**
   * `str.lower()`: in Latin-1 every character maps to exactly one, nothing
   * upper-case is left, and characters already lower-case stay as they are.
   */
  function Lower(s: string): (r: string)
    ensures |r| == |s|
    ensures forall k :: 0 <= k < |r| ==> LowerChar(r[k]) == r[k]
    ensures forall k :: 0 <= k < |s| && LowerChar(s[k]) == s[k] ==> r[k] == s[k]
  {
    seq(|s|, k requires 0 <= k < |s| => LowerChar(s[k]))
  }

  /** What the cleaner writes into a text field: `.str.upper().str.strip()`. */
  function NormalizeText(s: string): string {
    Strip(Upper(s))
  }

  /** What the cleaner makes of a column name: `.str.lower().str.strip()`. */
  function NormalizeName(s: string): string {
    Strip(Lower(s))
  }

  /** Normalising a field twice gives the same as normalising it once. */
  lemma NormalizeTextIdempotent(s: string)
    ensures NormalizeText(NormalizeText(s)) == NormalizeText(s)
  {
    var u := Upper(s);
    var t := Strip(u);
    UpperOutputStable(s);
    var i := LeadingSpaces(u);
    assert t == u[i..i + |t|];
    assert forall k :: 0 <= k < |t| ==> t[k] == u[i + k];
    UpperOfStable(t);
    StripIdempotent(u);
  }

  /** Normalising a column name twice gives the same as normalising it once. */
  lemma NormalizeNameIdempotent(s: string)
    ensures NormalizeName(NormalizeName(s)) == NormalizeName(s)
  {
    var l := Lower(s);
    var t := Strip(l);
    var i := LeadingSpaces(l);
    assert t == l[i..i + |t|];
    assert forall k :: 0 <= k < |t| ==> t[k] == l[i + k];
    assert Lower(t) == t;
    StripIdempotent(l);
  }

  /** Python and numpy string order: lexicographic on code points. */
  predicate StrLess(a: string, b: string) {
    if |a| == 0 then |b| != 0
    else if |b| == 0 then false
    else if a[0] != b[0] then a[0] < b[0]
    else StrLess(a[1..], b[1..])
  }

  lemma {:induction false} StrLessIrreflexive(a: string)
    ensures !StrLess(a, a)
  {
    if |a| > 0 { StrLessIrreflexive(a[1..]); }
  }

  lemma {:induction false} StrLessTransitive(a: string, b: string, c: string)
    requires StrLess(a, b) && StrLess(b, c)
    ensures StrLess(a, c)
  {
    if |a| > 0 && |b| > 0 && |c| > 0 && a[0] == b[0] == c[0] {
      StrLessTransitive(a[1..], b[1..], c[1..]);
    }
  }

  /** Any two different strings are ordered one way and not the other. */
  lemma {:induction false} StrLessTrichotomy(a: string, b: string)
    ensures a == b || StrLess(a, b) || StrLess(b, a)
    ensures !(StrLess(a, b) && StrLess(b, a))
  {
    if |a| > 0 && |b| > 0 && a[0] == b[0] {
      StrLessTrichotomy(a[1..], b[1..]);
      if a[1..] == b[1..] {
        assert a == [a[0]] + a[1..] && b == [b[0]] + b[1..];
      }
    }
  }
}

/**
 * The pieces of java.lang.String, java.lang.Character and java.util.regex
 * that the checkout validators rely on, stated on Dafny strings.
 *
 * A Dafny `string` is a sequence of Unicode scalar values; Java strings are
 * sequences of UTF-16 code units. For every Java string that is well-formed
 * UTF-16 the two agree on everything below except `length()`, which
 * `Utf16Length` models explicitly. A Java string holding an unpaired
 * surrogate has no Dafny counterpart and is outside this model.
 */
module JavaText {

  /** A Java reference that may be `null`. */
  datatype Nullable<T> = Null | NonNull(value: T)

  // ---------------------------------------------------------------------
  // String.length()
  // ---------------------------------------------------------------------

  /** Number of UTF-16 code units needed for `c`: 2 outside the Basic Multilingual Plane. */
  function Utf16Units(c: char): (n: nat)
    ensures n == 1 || n == 2
    ensures n == 1 <==> c < '\U{10000}'
  {
    if c < '\U{10000}' then 1 else 2
  }

  /** `s.length()` in Java: the number of UTF-16 code units of `s`. */
  function Utf16Length(s: string): (n: nat)
    ensures |s| <= n <= 2 * |s|
    ensures n == 0 <==> s == []
  {
    if s == [] then 0 else Utf16Units(s[0]) + Utf16Length(s[1..])
  }

  /** A string made only of Basic Multilingual Plane characters has as many code units as characters. */
  lemma {:induction false} Utf16LengthOfBmp(s: string)
    requires forall i :: 0 <= i < |s| ==> s[i] < '\U{10000}'
    ensures Utf16Length(s) == |s|
  {
    if s != [] {
      assert s[0] < '\U{10000}';
      Utf16LengthOfBmp(s[1..]);
    }
  }

  /** `s.repeat(n)` for a one-character `s`. */
  function Repeat(c: char, n: nat): (r: string)
    ensures |r| == n
    ensures forall i :: 0 <= i < n ==> r[i] == c
  {
    if n == 0 then [] else [c] + Repeat(c, n - 1)
  }

  // ---------------------------------------------------------------------
  // String.trim()
  // ---------------------------------------------------------------------

  /** Java's `trim()` removes every code unit at or below U+0020 from both ends. */
  predicate IsTrimmed(c: char) {
    c <= ' '
  }

  /** Drops the leading characters that `trim()` removes. */
  function TrimStart(s: string): (r: string)
    ensures |r| <= |s| && r == s[|s| - |r|..]
    ensures forall i :: 0 <= i < |s| - |r| ==> IsTrimmed(s[i])
    ensures r != [] ==> !IsTrimmed(r[0])
  {
    if s != [] && IsTrimmed(s[0]) then TrimStart(s[1..]) else s
  }

  /** Drops the trailing characters that `trim()` removes. */
  function TrimEnd(s: string): (r: string)
    ensures |r| <= |s| && r == s[..|r|]
    ensures forall i :: |r| <= i < |s| ==> IsTrimmed(s[i])
    ensures r != [] ==> !IsTrimmed(r[|r| - 1])
  {
    if s != [] && IsTrimmed(s[|s| - 1]) then TrimEnd(s[..|s| - 1]) else s
  }

  /** `s.trim()` */
  function Trim(s: string): string {
    TrimEnd(TrimStart(s))
  }

  /** `s.trim().isEmpty()` holds exactly when every character of `s` is one that `trim()` removes. */
  lemma TrimEmptyIffBlank(s: string)
    ensures Trim(s) == [] <==> forall i :: 0 <= i < |s| ==> IsTrimmed(s[i])
  {
    var t := TrimStart(s);
    assert forall i :: |s| - |t| <= i < |s| ==> s[i] == t[i - (|s| - |t|)];
  }

  // ---------------------------------------------------------------------
  // startsWith, endsWith, contains
  // ---------------------------------------------------------------------

  /** `s.startsWith(t)` */
  predicate StartsWith(s: string, t: string) {
    t <= s
  }

  /** `s.endsWith(t)` */
  predicate EndsWith(s: string, t: string) {
    |t| <= |s| && s[|s| - |t|..] == t
  }

  /** `t` occurs in `s` at position `i`. */
  predicate OccursAt(s: string, t: string, i: int) {
    0 <= i <= |s| - |t| && s[i..i + |t|] == t
  }

  /** `s.contains(t)`: `t` occurs somewhere in `s` (`s.indexOf(t) >= 0`). */
  predicate Contains(s: string, t: string) {
    exists i | 0 <= i <= |s| - |t| :: OccursAt(s, t, i)
  }

  // ---------------------------------------------------------------------
  // String.matches with a single repeated character class, and the classes
  // ---------------------------------------------------------------------

  /** `s.matches("[C]+")` (equivalently `"^[C]+$"`): `s` is non-empty and every character is in `C`. */
  predicate MatchesClassPlus(s: string, inClass: char -> bool) {
    |s| > 0 && forall i :: 0 <= i < |s| ==> inClass(s[i])
  }

  /** The regex class `\d` without UNICODE_CHARACTER_CLASS: ASCII `0`-`9` only. */
  predicate IsAsciiDigit(c: char) {
    '0' <= c <= '9'
  }

  predicate IsAsciiLetter(c: char) {
    'A' <= c <= 'Z' || 'a' <= c <= 'z'
  }

  /**
   * The Unicode general categories `\p{L}` (letters) and `\p{N}` (numbers)
   * as the Java runtime's tables define them. The tables themselves are not
   * part of this model; `AgreesWithUnicode` states the facts about them that
   * the proofs use.
   */
  datatype UnicodeCategories = UnicodeCategories(isLetter: char -> bool, isNumber: char -> bool)

  /** Characters of the Latin blocks that are all letters: Latin-1 letters, Latin Extended-A/B, IPA, Latin Extended Additional. */
  predicate IsLatinBlockLetter(c: char) {
    || '\U{00C0}' <= c <= '\U{00D6}'
    || '\U{00D8}' <= c <= '\U{00F6}'
    || '\U{00F8}' <= c <= '\U{02AF}'
    || '\U{1E00}' <= c <= '\U{1EFF}'
  }

  /**
   * Facts of the Unicode standard about `\p{L}` and `\p{N}`: in ASCII the
   * letters are exactly `A`-`Z`, `a`-`z` and the numbers exactly `0`-`9`;
   * the Latin blocks above are letters.
   */
  predicate AgreesWithUnicode(u: UnicodeCategories) {
    && (forall c :: c < '\U{0080}' ==> (u.isLetter(c) <==> IsAsciiLetter(c)))
    && (forall c :: c < '\U{0080}' ==> (u.isNumber(c) <==> IsAsciiDigit(c)))
    && (forall c :: IsLatinBlockLetter(c) ==> u.isLetter(c))
  }
}

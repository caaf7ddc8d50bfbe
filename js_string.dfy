/**
 * The JavaScript string operations the core relies on: `trim`, `length`
 * (counted in UTF-16 code units), `toLowerCase`, `includes`, and the
 * due-date pattern `/^\d{4}-\d{2}-\d{2}$/`.
 */
module JsString {

  /**
   * The characters `String.prototype.trim` removes: ECMAScript WhiteSpace
   * (tab, vertical tab, form feed, U+FEFF and every space separator) and
   * LineTerminator (LF, CR, U+2028, U+2029).
   */
  predicate IsWhiteSpace(c: char) {
    || c == '\t' || c == '\n' || c == '\U{000B}' || c == '\U{000C}' || c == '\r'
    || c == ' ' || c == '\U{00A0}' || c == '\U{1680}'
    || ('\U{2000}' <= c <= '\U{200A}')
    || c == '\U{2028}' || c == '\U{2029}' || c == '\U{202F}' || c == '\U{205F}'
    || c == '\U{3000}' || c == '\U{FEFF}'
  }

  /** Drops the leading white space: the result is a suffix of `s`. */
  function TrimStart(s: string): (r: string)
    ensures |r| <= |s| && r == s[|s| - |r|..]
    ensures r == [] || !IsWhiteSpace(r[0])
    ensures forall i :: 0 <= i < |s| - |r| ==> IsWhiteSpace(s[i])
  {
    if |s| > 0 && IsWhiteSpace(s[0]) then TrimStart(s[1..]) else s
  }

  /** Drops the trailing white space: the result is a prefix of `s`. */
  function TrimEnd(s: string): (r: string)
    ensures |r| <= |s| && r == s[..|r|]
    ensures r == [] || !IsWhiteSpace(r[|r| - 1])
    ensures forall i :: |r| <= i < |s| ==> IsWhiteSpace(s[i])
  {
    if |s| > 0 && IsWhiteSpace(s[|s| - 1]) then TrimEnd(s[..|s| - 1]) else s
  }

  /** `String.prototype.trim`. */
  function Trim(s: string): (r: string)
    ensures |r| <= |s|
    ensures IsTrimmed(r)
  {
    TrimEnd(TrimStart(s))
  }

  /** A string is trimmed when it neither starts nor ends with white space. */
  predicate IsTrimmed(s: string) {
    s == [] || (!IsWhiteSpace(s[0]) && !IsWhiteSpace(s[|s| - 1]))
  }

  /**
   * `trim` keeps a contiguous middle part of its input, without white space
   * at either end, and drops only white space.
   */
  lemma TrimSpec(s: string)
    ensures IsTrimmed(Trim(s))
    ensures exists a: nat ::
      && OccursAt(s, Trim(s), a)
      && (forall i :: 0 <= i < a ==> IsWhiteSpace(s[i]))
      && (forall i :: a + |Trim(s)| <= i < |s| ==> IsWhiteSpace(s[i]))
    ensures Trim(s) == [] <==> forall i :: 0 <= i < |s| ==> IsWhiteSpace(s[i])
  {
    var a := TrimOffset(s);
    TrimEmpty(s);
  }

  /** Where the part `trim` keeps starts: only white space lies before and after it. */
  lemma TrimOffset(s: string) returns (a: nat)
    ensures OccursAt(s, Trim(s), a)
    ensures forall i :: 0 <= i < a ==> IsWhiteSpace(s[i])
    ensures forall i :: a + |Trim(s)| <= i < |s| ==> IsWhiteSpace(s[i])
  {
    var t := TrimStart(s);
    var r := TrimEnd(t);
    a := |s| - |t|;
    assert t == s[a..] && r == t[..|r|];
    SliceOfSuffix(s, a, |r|);
    ShiftedAll(s, a, |r|, IsWhiteSpace);
  }

  /** The first `n` elements of `s[a..]` are `s[a..a + n]`. */
  lemma SliceOfSuffix<T>(s: seq<T>, a: nat, n: nat)
    requires a + n <= |s|
    ensures s[a..][..n] == s[a..a + n]
  {
  }

  /** What holds of every character of `s[a..]` from position `lo` on holds of `s` from `a + lo` on. */
  lemma ShiftedAll(s: string, a: nat, lo: nat, p: char -> bool)
    requires a <= |s| && forall i :: lo <= i < |s| - a ==> p(s[a..][i])
    ensures forall i :: a + lo <= i < |s| ==> p(s[i])
  {
    forall i | a + lo <= i < |s| ensures p(s[i]) {
      assert s[i] == s[a..][i - a];
    }
  }

  /** `trim` gives the empty string exactly for an all-white-space input. */
  lemma TrimEmpty(s: string)
    ensures Trim(s) == [] <==> forall i :: 0 <= i < |s| ==> IsWhiteSpace(s[i])
  {
    var t := TrimStart(s);
    var r := TrimEnd(t);
    var a := |s| - |t|;
    assert t == s[a..];
    assert r == [] ==> t == [];
    if r != [] {
      assert r[0] == t[0] == s[a];
    }
  }

  /** A trimmed string is its own trim. */
  lemma TrimmedIsFixed(s: string)
    requires IsTrimmed(s)
    ensures Trim(s) == s
  {
  }

  /** `trim` is idempotent. */
  lemma TrimIdempotent(s: string)
    ensures Trim(Trim(s)) == Trim(s)
  {
    TrimSpec(s);
    TrimmedIsFixed(Trim(s));
  }

  /** A string with a character that is not white space keeps one through `trim`. */
  lemma TrimNonEmpty(s: string)
    ensures Trim(s) != [] <==> exists i :: 0 <= i < |s| && !IsWhiteSpace(s[i])
  {
    TrimSpec(s);
  }

  /** The number of UTF-16 code units of a character: two above U+FFFF. */
  function Utf16Units(c: char): nat {
    if c as int >= 0x1_0000 then 2 else 1
  }

  /** `String.prototype.length`, which counts UTF-16 code units. */
  function Utf16Length(s: string): (n: nat)
    ensures |s| <= n <= 2 * |s|
    ensures n == 0 <==> s == []
  {
    if s == [] then 0 else Utf16Units(s[0]) + Utf16Length(s[1..])
  }

  /** `String.prototype.toLowerCase` on ASCII letters; other characters are kept. */
  function LowerChar(c: char): char {
    if 'A' <= c <= 'Z' then (c as int + 32) as char else c
  }

  function ToLower(s: string): (r: string)
    ensures |r| == |s|
    ensures forall i :: 0 <= i < |s| ==> r[i] == LowerChar(s[i])
  {
    seq(|s|, i requires 0 <= i < |s| => LowerChar(s[i]))
  }

  /** `q` occurs in `hay` starting at position `i`. */
  predicate OccursAt(hay: string, q: string, i: nat) {
    i + |q| <= |hay| && hay[i..i + |q|] == q
  }

  /** `hay.includes(q)`: `q` occurs in `hay` at some position. */
  predicate Includes(hay: string, q: string) {
    exists i: nat | i <= |hay| :: OccursAt(hay, q, i)
  }

  /** `\d` in a regular expression without the `u` flag: an ASCII digit. */
  predicate IsDigit(c: char) {
    '0' <= c <= '9'
  }

  /** `/^\d{4}-\d{2}-\d{2}$/.test(s)`: the shape is checked, not the calendar. */
  predicate MatchesDatePattern(s: string) {
    && |s| == 10
    && IsDigit(s[0]) && IsDigit(s[1]) && IsDigit(s[2]) && IsDigit(s[3])
    && s[4] == '-'
    && IsDigit(s[5]) && IsDigit(s[6])
    && s[7] == '-'
    && IsDigit(s[8]) && IsDigit(s[9])
  }

  /** A string of the date shape is unchanged by `trim`. */
  lemma DatePatternIsTrimmed(s: string)
    requires MatchesDatePattern(s)
    ensures IsTrimmed(s) && Trim(s) == s
  {
  }
}

/**
 * The two string helpers of the library (lectern-core's utils/StringUtils and
 * the legacy copy in src/main, whose bodies are the same): the
 * camelCase-to-hyphen-snake key conversion and the blank-to-null
 * normalisation of descriptions.
 */
module StringUtils {
  import opened Wrappers

  predicate IsAsciiLower(c: char) { 'a' <= c <= 'z' }

  predicate IsAsciiUpper(c: char) { 'A' <= c <= 'Z' }

  /** `toLowerCase(Locale.ROOT)` of an ASCII capital. */
  function ToLower(c: char): (r: char)
    requires IsAsciiUpper(c)
    ensures IsAsciiLower(r)
  {
    (c as int - 'A' as int + 'a' as int) as char
  }

  /**
   * Position `i` matches the pattern `(?<=[a-z])[A-Z]`: a capital whose
   * predecessor in the ORIGINAL input is a lower-case letter.
   */
  predicate IsBoundary(s: string, i: int)
    requires 0 <= i < |s|
  {
    i > 0 && IsAsciiLower(s[i - 1]) && IsAsciiUpper(s[i])
  }

  /** What the replacement turns the character at `i` into. */
  function Piece(s: string, i: int): string
    requires 0 <= i < |s|
  {
    if IsBoundary(s, i) then ['-', ToLower(s[i])] else [s[i]]
  }

  /** `camelCaseToHyphenSnakeCase`: every match is replaced by "-" and its lower-case form. */
  function CamelCaseToHyphenSnakeCase(s: string): string
    decreases |s|
  {
    if |s| == 0 then "" else CamelCaseToHyphenSnakeCase(s[..|s| - 1]) + Piece(s, |s| - 1)
  }

  /** The number of matches among the first |s| positions. */
  function CountBoundaries(s: string): nat
    decreases |s|
  {
    if |s| == 0 then 0 else CountBoundaries(s[..|s| - 1]) + (if IsBoundary(s, |s| - 1) then 1 else 0)
  }

  lemma BoundaryOfPrefix(s: string, k: int, i: int)
    requires 0 <= i < k <= |s|
    ensures IsBoundary(s[..k], i) == IsBoundary(s, i)
  {
  }

  /** The output is the input lengthened by one hyphen per match. */
  lemma {:induction false} ConversionLength(s: string)
    ensures |CamelCaseToHyphenSnakeCase(s)| == |s| + CountBoundaries(s)
    decreases |s|
  {
    if |s| > 0 {
      ConversionLength(s[..|s| - 1]);
    }
  }

  /**
   * Where character `i` of the input lands: after the characters before it
   * and the hyphens those produced, either unchanged or as "-" plus its
   * lower-case form.
   */
  lemma {:induction false} ConversionAt(s: string, i: int)
    requires 0 <= i < |s|
    ensures var r, j := CamelCaseToHyphenSnakeCase(s), i + CountBoundaries(s[..i]);
      if IsBoundary(s, i) then j + 1 < |r| && r[j] == '-' && r[j + 1] == ToLower(s[i])
      else j < |r| && r[j] == s[i]
    decreases |s|
  {
    var n := |s| - 1;
    var front := s[..n];
    assert CamelCaseToHyphenSnakeCase(s) == CamelCaseToHyphenSnakeCase(front) + Piece(s, n);
    if i == n {
      assert s[..i] == front;
      ConversionLength(front);
    } else {
      ConversionAt(front, i);
      assert front[..i] == s[..i];
      BoundaryOfPrefix(s, n, i);
      assert front[i] == s[i];
    }
  }

  /** An input with no match comes back unchanged. */
  lemma {:induction false} NoBoundaryUnchanged(s: string)
    requires forall i | 0 <= i < |s| :: !IsBoundary(s, i)
    ensures CamelCaseToHyphenSnakeCase(s) == s
    decreases |s|
  {
    if |s| > 0 {
      var front := s[..|s| - 1];
      forall i | 0 <= i < |front| ensures !IsBoundary(front, i) {
        BoundaryOfPrefix(s, |s| - 1, i);
      }
      NoBoundaryUnchanged(front);
      assert front + [s[|s| - 1]] == s;
    }
  }

  /**
   * A checker that walks the input from position `i` and a candidate output
   * from position `j` in step. It recurses on integers only, so the verifier
   * can evaluate it on literal strings.
   */
  predicate ConvertsTo(s: string, t: string, i: nat, j: nat)
    decreases |s| - i
  {
    if i >= |s| then j == |t|
    else if IsBoundary(s, i) then
      j + 1 < |t| && t[j] == '-' && t[j + 1] == ToLower(s[i]) && ConvertsTo(s, t, i + 1, j + 2)
    else
      j < |t| && t[j] == s[i] && ConvertsTo(s, t, i + 1, j + 1)
  }

  lemma ConversionStep(s: string, i: int)
    requires 0 <= i < |s|
    ensures CamelCaseToHyphenSnakeCase(s[..i + 1]) == CamelCaseToHyphenSnakeCase(s[..i]) + Piece(s, i)
  {
    assert s[..i + 1][..i] == s[..i];
  }

  /** A checker run that succeeds from a matched prefix proves the whole conversion. */
  lemma {:induction false} ConvertsToSound(s: string, t: string, i: nat, j: nat)
    requires i <= |s| && j <= |t|
    requires t[..j] == CamelCaseToHyphenSnakeCase(s[..i])
    requires ConvertsTo(s, t, i, j)
    ensures CamelCaseToHyphenSnakeCase(s) == t
    decreases |s| - i
  {
    if i == |s| {
      assert s[..i] == s;
      assert t[..j] == t;
    } else {
      ConversionStep(s, i);
      if IsBoundary(s, i) {
        assert t[..j + 2] == t[..j] + Piece(s, i);
        ConvertsToSound(s, t, i + 1, j + 2);
      } else {
        assert t[..j + 1] == t[..j] + Piece(s, i);
        ConvertsToSound(s, t, i + 1, j + 1);
      }
    }
  }

  /** The conversion is not idempotent: "aBC" gives "a-bC", which converts again to "a-b-c". */
  lemma NotIdempotent()
    ensures CamelCaseToHyphenSnakeCase("aBC") == "a-bC"
    ensures CamelCaseToHyphenSnakeCase(CamelCaseToHyphenSnakeCase("aBC")) == "a-b-c"
  {
    ConvertsToSound("aBC", "a-bC", 0, 0);
    ConvertsToSound("a-bC", "a-b-c", 0, 0);
  }

  /** The examples of the core library's tests. */
  lemma CoreExamples()
    ensures CamelCaseToHyphenSnakeCase("helloThereBuddy") == "hello-there-buddy"
    ensures CamelCaseToHyphenSnakeCase("i'mOverHereNow") == "i'm-over-here-now"
  {
    HelloThereBuddy();
    OverHereNow();
  }

  lemma HelloThereBuddy()
    ensures CamelCaseToHyphenSnakeCase("helloThereBuddy") == "hello-there-buddy"
  {
    assert ConvertsTo("helloThereBuddy", "hello-there-buddy", 10, 11);
    assert ConvertsTo("helloThereBuddy", "hello-there-buddy", 5, 5);
    ConvertsToSound("helloThereBuddy", "hello-there-buddy", 0, 0);
  }

  lemma OverHereNow()
    ensures CamelCaseToHyphenSnakeCase("i'mOverHereNow") == "i'm-over-here-now"
  {
    assert ConvertsTo("i'mOverHereNow", "i'm-over-here-now", 7, 8);
    assert ConvertsTo("i'mOverHereNow", "i'm-over-here-now", 3, 3);
    ConvertsToSound("i'mOverHereNow", "i'm-over-here-now", 0, 0);
  }

  /** The example of the legacy library's test. */
  lemma LegacyExample()
    ensures CamelCaseToHyphenSnakeCase("addActionBar") == "add-action-bar"
  {
    assert ConvertsTo("addActionBar", "add-action-bar", 6, 7);
    ConvertsToSound("addActionBar", "add-action-bar", 0, 0);
  }

  /** `Character.isWhitespace`: the Unicode space, line and paragraph separators except the no-break spaces, and the ASCII controls U+0009..U+000D, U+001C..U+001F. */
  predicate IsWhitespace(c: char) {
    ('\U{9}' <= c <= '\U{D}') || ('\U{1C}' <= c <= '\U{20}') ||
    c == '\U{1680}' || ('\U{2000}' <= c <= '\U{2006}') || ('\U{2008}' <= c <= '\U{200A}') ||
    c == '\U{2028}' || c == '\U{2029}' || c == '\U{205F}' || c == '\U{3000}'
  }

  /** `String.isBlank`: empty or only whitespace. */
  predicate IsBlank(s: string) {
    forall i | 0 <= i < |s| :: IsWhitespace(s[i])
  }

  /** `emptyToNull`: null for null or blank input, the input itself otherwise. */
  function EmptyToNull(s: Option<string>): (r: Option<string>)
    ensures r.None? <==> (s.None? || IsBlank(s.value))
    ensures r.Some? ==> r == s
  {
    if s.None? || IsBlank(s.value) then None else s
  }

  /** The examples of the core library's tests: "" and "  " give null, "HEY" does not. */
  lemma EmptyToNullExamples()
    ensures EmptyToNull(Some("")) == None
    ensures EmptyToNull(Some("  ")) == None
    ensures EmptyToNull(Some("HEY")) == Some("HEY")
  {
    assert !IsWhitespace("HEY"[0]);
  }
}

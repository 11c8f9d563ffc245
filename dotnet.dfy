/**
 * The pieces of the .NET base library that the cache core leans on: nullable
 * references, 32-bit integers, and the string operations the connection-string
 * parser, the key filters and the plugin comparator call.
 *
 * Strings are Dafny strings (sequences of Unicode scalar values). Case-insensitive
 * comparisons and lower-casing are modelled on ASCII letters only.
 */
module DotNet {

  /** A reference that may be null: None stands for null. */
  datatype Option<+T> = None | Some(value: T) {
    function GetOr(default: T): T {
      match this
      case Some(v) => v
      case None => default
    }
  }

  /** A value, or the exception that was thrown instead of producing it. */
  datatype Result<+T> = Success(value: T) | Failure(error: Exception)

  datatype Exception = NullReferenceException

  /** System.Int32. */
  newtype int32 = x: int | -0x8000_0000 <= x < 0x8000_0000

  // ---------------------------------------------------------------------------
  // Trimming

  /** char.IsWhiteSpace: the characters of the Unicode White_Space property. */
  predicate IsWhiteSpace(c: char) {
    || ('\t' <= c <= '\r')
    || c == ' '
    || c == '\U{85}'
    || c == '\U{A0}'
    || c == '\U{1680}'
    || ('\U{2000}' <= c <= '\U{200A}')
    || c == '\U{2028}'
    || c == '\U{2029}'
    || c == '\U{202F}'
    || c == '\U{205F}'
    || c == '\U{3000}'
  }

  /** The characters that Boolean.TryParse strips before its second attempt. */
  predicate IsWhiteSpaceOrNull(c: char) {
    IsWhiteSpace(c) || c == '\0'
  }

  /** Drops the longest prefix made of `junk` characters. */
  function TrimStartWhere(s: string, junk: char -> bool): (r: string)
    ensures |r| <= |s| && r == s[|s| - |r|..]
    ensures forall i :: 0 <= i < |s| - |r| ==> junk(s[i])
    ensures |r| > 0 ==> !junk(r[0])
  {
    if |s| > 0 && junk(s[0]) then TrimStartWhere(s[1..], junk) else s
  }

  /** Drops the longest suffix made of `junk` characters. */
  function TrimEndWhere(s: string, junk: char -> bool): (r: string)
    ensures |r| <= |s| && r == s[..|r|]
    ensures forall i :: |r| <= i < |s| ==> junk(s[i])
    ensures |r| > 0 ==> !junk(r[|r| - 1])
  {
    if |s| > 0 && junk(s[|s| - 1]) then TrimEndWhere(s[..|s| - 1], junk) else s
  }

  /** String.Trim(): removes leading and trailing white space. */
  function Trim(s: string): string {
    TrimEndWhere(TrimStartWhere(s, IsWhiteSpace), IsWhiteSpace)
  }

  /** Trim strips white space at both ends and keeps everything in between. */
  lemma TrimIsInfix(s: string)
    ensures exists i, j :: 0 <= i <= j <= |s| && Trim(s) == s[i..j]
    ensures |Trim(s)| > 0 ==> !IsWhiteSpace(Trim(s)[0]) && !IsWhiteSpace(Trim(s)[|Trim(s)| - 1])
  {
    var t := TrimStartWhere(s, IsWhiteSpace);
    var r := TrimEndWhere(t, IsWhiteSpace);
    var i := |s| - |t|;
    assert r == t[..|r|];
    assert t == s[i..];
    assert r == s[i..i + |r|];
    if |r| > 0 {
      assert r[0] == t[0];
    }
  }

  // ---------------------------------------------------------------------------
  // Searching and splitting

  /** String.IndexOf(char): the first position of `c`, or -1. */
  function IndexOf(s: string, c: char): (r: int)
    ensures -1 <= r < |s|
    ensures r == -1 <==> c !in s
    ensures r >= 0 ==> s[r] == c && c !in s[..r]
  {
    if |s| == 0 then -1
    else if s[0] == c then 0
    else
      var k := IndexOf(s[1..], c);
      if k < 0 then -1 else k + 1
  }

  /** String.Split(char): every piece between separators, empty pieces included. */
  function Split(s: string, sep: char): (parts: seq<string>)
    ensures |parts| >= 1
    ensures forall i :: 0 <= i < |parts| ==> sep !in parts[i]
    ensures Join(parts, sep) == s
    decreases |s|
  {
    var i := IndexOf(s, sep);
    if i < 0 then [s]
    else
      var rest := Split(s[i + 1..], sep);
      assert s == s[..i] + [sep] + s[i + 1..];
      [s[..i]] + rest
  }

  /** String.Join(char, parts): the inverse of Split. */
  function Join(parts: seq<string>, sep: char): string {
    if |parts| == 0 then ""
    else if |parts| == 1 then parts[0]
    else parts[0] + [sep] + Join(parts[1..], sep)
  }

  lemma {:induction false} IndexOfAfterPrefix(a: string, sep: char, b: string)
    requires sep !in a
    ensures IndexOf(a + [sep] + b, sep) == |a|
  {
    if |a| > 0 {
      assert (a + [sep] + b)[1..] == a[1..] + [sep] + b;
      IndexOfAfterPrefix(a[1..], sep, b);
    }
  }

  /** Splitting a join of separator-free pieces gives the pieces back. */
  lemma {:induction false} SplitJoin(parts: seq<string>, sep: char)
    requires |parts| >= 1
    requires forall i :: 0 <= i < |parts| ==> sep !in parts[i]
    ensures Split(Join(parts, sep), sep) == parts
  {
    if |parts| == 1 {
      assert IndexOf(parts[0], sep) == -1;
    } else {
      var s := Join(parts, sep);
      var tail := Join(parts[1..], sep);
      assert s == parts[0] + [sep] + tail;
      IndexOfAfterPrefix(parts[0], sep, tail);
      assert s[..|parts[0]|] == parts[0];
      assert s[|parts[0]| + 1..] == tail;
      SplitJoin(parts[1..], sep);
    }
  }

  /** `p` occurs in `s` starting at position `i`. */
  predicate OccursAt(s: string, p: string, i: int) {
    0 <= i && i + |p| <= |s| && s[i..i + |p|] == p
  }

  /** String.Contains(string): ordinal substring containment. */
  function Contains(s: string, p: string): bool
    decreases |s|
  {
    if |p| > |s| then false
    else s[..|p|] == p || (|s| > 0 && Contains(s[1..], p))
  }

  /** Contains means an occurrence at some position. */
  lemma {:induction false} ContainsIff(s: string, p: string)
    ensures Contains(s, p) <==> exists i :: OccursAt(s, p, i)
    decreases |s|
  {
    if |p| > |s| {
      forall i | OccursAt(s, p, i) ensures false { }
    } else if s[..|p|] == p {
      assert OccursAt(s, p, 0);
    } else {
      assert |s| > 0;
      ContainsIff(s[1..], p);
      if Contains(s[1..], p) {
        var i :| OccursAt(s[1..], p, i);
        assert s[i + 1..i + 1 + |p|] == s[1..][i..i + |p|];
        assert OccursAt(s, p, i + 1);
      } else {
        forall i | OccursAt(s, p, i) ensures false {
          if i > 0 {
            assert i - 1 + |p| <= |s[1..]|;
            assert s[1..][i - 1..i - 1 + |p|] == s[i..i + |p|];
            assert OccursAt(s[1..], p, i - 1);
          }
        }
      }
    }
  }

  /** A string contains a non-empty pattern only if it contains the pattern's first character. */
  lemma {:induction false} ContainsHeadChar(s: string, p: string)
    requires |p| > 0 && Contains(s, p)
    ensures p[0] in s
    decreases |s|
  {
    if s[..|p|] == p {
      assert s[0] == p[0];
    } else {
      ContainsHeadChar(s[1..], p);
      assert p[0] in s[1..];
    }
  }

  // ---------------------------------------------------------------------------
  // Case

  /** Char.ToLowerInvariant on ASCII letters. */
  function LowerAscii(c: char): char {
    if 'A' <= c <= 'Z' then (c as int + 32) as char else c
  }

  /** Char.ToUpperInvariant on ASCII letters. */
  function UpperAscii(c: char): char {
    if 'a' <= c <= 'z' then (c as int - 32) as char else c
  }

  /** String.ToLowerInvariant: lower-cases letter by letter, keeping the length. */
  function ToLowerInvariant(s: string): (r: string)
    ensures |r| == |s|
    ensures forall i :: 0 <= i < |s| ==> r[i] == LowerAscii(s[i])
  {
    if |s| == 0 then "" else [LowerAscii(s[0])] + ToLowerInvariant(s[1..])
  }

  /** String.Equals(a, b, StringComparison.OrdinalIgnoreCase). */
  predicate EqualsIgnoreCase(a: string, b: string) {
    |a| == |b| && forall i :: 0 <= i < |a| ==> UpperAscii(a[i]) == UpperAscii(b[i])
  }

  /** OrdinalIgnoreCase is an equivalence relation. */
  lemma EqualsIgnoreCaseIsEquivalence(a: string, b: string, c: string)
    ensures EqualsIgnoreCase(a, a)
    ensures EqualsIgnoreCase(a, b) ==> EqualsIgnoreCase(b, a)
    ensures EqualsIgnoreCase(a, b) && EqualsIgnoreCase(b, c) ==> EqualsIgnoreCase(a, c)
  {
  }

  // ---------------------------------------------------------------------------
  // Ordinal order

  /**
   * The sign of String.Compare(a, b, StringComparison.Ordinal): the first
   * differing character decides, and a proper prefix sorts first.
   */
  function CompareOrdinal(a: string, b: string): (r: int)
    ensures -1 <= r <= 1
    ensures r == 0 <==> a == b
  {
    if |a| == 0 && |b| == 0 then 0
    else if |a| == 0 then -1
    else if |b| == 0 then 1
    else if a[0] < b[0] then -1
    else if a[0] > b[0] then 1
    else
      var r := CompareOrdinal(a[1..], b[1..]);
      assert r == 0 ==> a == [a[0]] + a[1..] == [b[0]] + b[1..] == b;
      r
  }

  /** Swapping the arguments flips the sign. */
  lemma {:induction false} CompareOrdinalAntisymmetric(a: string, b: string)
    ensures CompareOrdinal(b, a) == -CompareOrdinal(a, b)
  {
    if |a| > 0 && |b| > 0 && a[0] == b[0] {
      CompareOrdinalAntisymmetric(a[1..], b[1..]);
    }
  }

  /** "Sorts no later than" is transitive. */
  lemma {:induction false} CompareOrdinalTransitive(a: string, b: string, c: string)
    requires CompareOrdinal(a, b) <= 0 && CompareOrdinal(b, c) <= 0
    ensures CompareOrdinal(a, c) <= 0
  {
    if |a| > 0 && |b| > 0 && |c| > 0 && a[0] == b[0] == c[0] {
      CompareOrdinalTransitive(a[1..], b[1..], c[1..]);
    }
  }

  // ---------------------------------------------------------------------------
  // Booleans

  /** Strips white space and '\0' characters from both ends. */
  function TrimWhiteSpaceAndNull(s: string): string {
    TrimEndWhere(TrimStartWhere(s, IsWhiteSpaceOrNull), IsWhiteSpaceOrNull)
  }

  /**
   * Boolean.TryParse(s, out result) as (parsed, result): "True" or "False" in any
   * ASCII case, first as given and then with white space and '\0' stripped. On
   * failure the out-parameter is still overwritten, with false.
   */
  function TryParseBoolean(s: string): (bool, bool) {
    if EqualsIgnoreCase(s, "True") then (true, true)
    else if EqualsIgnoreCase(s, "False") then (true, false)
    else
      var t := TrimWhiteSpaceAndNull(s);
      if EqualsIgnoreCase(t, "True") then (true, true)
      else if EqualsIgnoreCase(t, "False") then (true, false)
      else (false, false)
  }

  /** A string whose first and last characters are not junk is its own trim. */
  lemma TrimKeepsLetterBounds(s: string, junk: char -> bool)
    requires |s| > 0 && !junk(s[0]) && !junk(s[|s| - 1])
    ensures TrimEndWhere(TrimStartWhere(s, junk), junk) == s
  {
    var t := TrimStartWhere(s, junk);
    assert t == s;
  }

  /** TryParse yields true exactly for "true" in any ASCII case, once white space and '\0' are stripped. */
  lemma TryParseBooleanTrueIff(s: string)
    ensures TryParseBoolean(s).1 <==> EqualsIgnoreCase(TrimWhiteSpaceAndNull(s), "True")
    ensures !TryParseBoolean(s).0 ==> !TryParseBoolean(s).1
  {
    if EqualsIgnoreCase(s, "True") {
      assert UpperAscii(s[0]) == 'T' && UpperAscii(s[3]) == 'E';
      assert !IsWhiteSpaceOrNull(s[0]) && !IsWhiteSpaceOrNull(s[3]);
      TrimKeepsLetterBounds(s, IsWhiteSpaceOrNull);
      assert TrimWhiteSpaceAndNull(s) == s;
    } else if EqualsIgnoreCase(s, "False") {
      assert UpperAscii(s[0]) == 'F' && UpperAscii(s[4]) == 'E';
      assert !IsWhiteSpaceOrNull(s[0]) && !IsWhiteSpaceOrNull(s[4]);
      TrimKeepsLetterBounds(s, IsWhiteSpaceOrNull);
      assert TrimWhiteSpaceAndNull(s) == s;
    }
  }
}

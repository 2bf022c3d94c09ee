/**
 * Character and string helpers of the Kotlin standard library that the
 * request pipeline relies on: `trim`, `isBlank`, `contains(…, ignoreCase = true)`,
 * and a separator-based join/split pair used to read assembled text back.
 */
module Text {

  /**
   * Kotlin's `Char.isWhitespace()` on the JVM: `Character.isWhitespace(c) ||
   * Character.isSpaceChar(c)`, i.e. the ASCII controls U+0009..U+000D and
   * U+001C..U+001F, and every space, line and paragraph separator.
   */
  predicate IsWhitespace(c: char) {
    || ('\U{0009}' <= c <= '\U{000D}')
    || ('\U{001C}' <= c <= '\U{0020}')
    || c == '\U{00A0}' || c == '\U{1680}'
    || ('\U{2000}' <= c <= '\U{200A}')
    || c == '\U{2028}' || c == '\U{2029}' || c == '\U{202F}' || c == '\U{205F}'
    || c == '\U{3000}'
  }

  /** Concatenation is associative; stated once so that proofs can name it. */
  lemma AppendAssoc<T>(a: seq<T>, b: seq<T>, c: seq<T>)
    ensures a + b + c == a + (b + c)
  {
  }

  /** Kotlin's `CharSequence.isBlank()`: every character is whitespace. */
  predicate IsBlank(s: string) {
    forall i :: 0 <= i < |s| ==> IsWhitespace(s[i])
  }

  /** Drops leading whitespace. */
  function TrimStart(s: string): string
  {
    if s != [] && IsWhitespace(s[0]) then TrimStart(s[1..]) else s
  }

  /** Drops trailing whitespace. */
  function TrimEnd(s: string): string
  {
    if s != [] && IsWhitespace(s[|s| - 1]) then TrimEnd(s[..|s| - 1]) else s
  }

  /** Kotlin's `String.trim()`. */
  function Trim(s: string): string
  {
    TrimEnd(TrimStart(s))
  }

  /** `TrimStart` gives the longest suffix that does not start with whitespace. */
  lemma {:induction false} TrimStartSpec(s: string)
    ensures var r := TrimStart(s);
            && |r| <= |s| && r == s[|s| - |r|..]
            && (r == [] || !IsWhitespace(r[0]))
            && forall i :: 0 <= i < |s| - |r| ==> IsWhitespace(s[i])
  {
    if s != [] && IsWhitespace(s[0]) {
      var t := s[1..];
      TrimStartSpec(t);
      var r := TrimStart(t);
      assert TrimStart(s) == r;
      assert t[|t| - |r|..] == s[|s| - |r|..];
      forall i | 0 <= i < |s| - |r| ensures IsWhitespace(s[i]) {
        if i > 0 {
          assert s[i] == t[i - 1];
        }
      }
    }
  }

  /** `TrimEnd` gives the longest prefix that does not end with whitespace. */
  lemma {:induction false} TrimEndSpec(s: string)
    ensures var r := TrimEnd(s);
            && |r| <= |s| && r == s[..|r|]
            && (r == [] || !IsWhitespace(r[|r| - 1]))
            && forall i :: |r| <= i < |s| ==> IsWhitespace(s[i])
  {
    if s != [] && IsWhitespace(s[|s| - 1]) {
      var t := s[..|s| - 1];
      TrimEndSpec(t);
      var r := TrimEnd(t);
      assert TrimEnd(s) == r;
      assert t[..|r|] == s[..|r|];
      forall i | |r| <= i < |s| ensures IsWhitespace(s[i]) {
        if i < |t| {
          assert s[i] == t[i];
        }
      }
    }
  }

  /**
   * `trim()` removes whitespace at both ends and nothing else: the result is
   * the infix `s[i..j]` with only whitespace outside it and no whitespace
   * at either of its own ends.
   */
  lemma TrimIsInfix(s: string)
    ensures var i := |s| - |TrimStart(s)|;
            var j := i + |Trim(s)|;
            && 0 <= i <= j <= |s|
            && Trim(s) == s[i..j]
            && (forall k :: 0 <= k < i ==> IsWhitespace(s[k]))
            && (forall k :: j <= k < |s| ==> IsWhitespace(s[k]))
            && (Trim(s) != [] ==> !IsWhitespace(Trim(s)[0]) && !IsWhitespace(Trim(s)[|Trim(s)| - 1]))
  {
    var t := TrimStart(s);
    TrimStartSpec(s);
    var u := TrimEnd(t);
    TrimEndSpec(t);
    assert Trim(s) == u;
    var i := |s| - |t|;
    var j := i + |u|;
    assert s[i..j] == t[..|u|];
    forall k | j <= k < |s| ensures IsWhitespace(s[k]) {
      assert s[k] == t[k - i];
    }
    if u != [] {
      assert u[0] == t[0];
    }
  }

  /** A string that neither starts nor ends with whitespace is its own trim. */
  lemma TrimUnchanged(s: string)
    requires s != [] ==> !IsWhitespace(s[0]) && !IsWhitespace(s[|s| - 1])
    ensures Trim(s) == s
  {
    assert TrimStart(s) == s;
  }

  /** `s.trim().isEmpty()` and `s.isBlank()` agree. */
  lemma TrimEmptyIffBlank(s: string)
    ensures Trim(s) == [] <==> IsBlank(s)
  {
    TrimIsInfix(s);
    var i := |s| - |TrimStart(s)|;
    if Trim(s) != [] {
      assert s[i] == Trim(s)[0];
    }
  }

  /** Trimming twice is trimming once. */
  lemma TrimIdempotent(s: string)
    ensures Trim(Trim(s)) == Trim(s)
  {
    TrimIsInfix(s);
    TrimUnchanged(Trim(s));
  }

  /** Index of the first `c` in `s`, or `|s|` when there is none. */
  function IndexOf(s: string, c: char): (i: nat)
    ensures i <= |s|
  {
    if s == [] then 0 else if s[0] == c then 0 else 1 + IndexOf(s[1..], c)
  }

  /** `IndexOf` finds the first `c`, and gives `|s|` when there is none. */
  lemma {:induction false} IndexOfSpec(s: string, c: char)
    ensures IndexOf(s, c) < |s| ==> s[IndexOf(s, c)] == c
    ensures forall k :: 0 <= k < IndexOf(s, c) ==> s[k] != c
  {
    if s != [] && s[0] != c {
      IndexOfSpec(s[1..], c);
      forall k | 0 <= k < IndexOf(s, c) ensures s[k] != c {
        if k > 0 {
          assert s[k] == s[1..][k - 1];
        }
      }
    }
  }

  /** Kotlin's `joinToString(sep)` over strings. */
  function Join(parts: seq<string>, sep: char): string
  {
    if |parts| == 0 then ""
    else if |parts| == 1 then parts[0]
    else parts[0] + [sep] + Join(parts[1..], sep)
  }

  /** Splits `s` at every `sep`; the inverse of `Join` on separator-free parts. */
  function Split(s: string, sep: char): (parts: seq<string>)
    ensures |parts| >= 1
    decreases |s|
  {
    var i := IndexOf(s, sep);
    if i == |s| then [s] else [s[..i]] + Split(s[i + 1..], sep)
  }

  predicate Free(parts: seq<string>, sep: char) {
    forall k :: 0 <= k < |parts| ==> sep !in parts[k]
  }

  /** Two lists of separator-free parts make one. */
  lemma FreeAppend(a: seq<string>, b: seq<string>, sep: char)
    requires Free(a, sep) && Free(b, sep)
    ensures Free(a + b, sep)
  {
    forall k | 0 <= k < |a + b| ensures sep !in (a + b)[k] {
      if k >= |a| {
        assert (a + b)[k] == b[k - |a|];
      }
    }
  }

  lemma IndexOfJoined(p: string, sep: char, rest: string)
    requires sep !in p
    ensures IndexOf(p + [sep] + rest, sep) == |p|
  {
    var s := p + [sep] + rest;
    IndexOfSpec(s, sep);
    assert s[|p|] == sep;
    assert forall k :: 0 <= k < |p| ==> s[k] == p[k];
  }

  /** Joining separator-free parts and splitting again gives the parts back. */
  lemma {:induction false} SplitJoin(parts: seq<string>, sep: char)
    requires |parts| >= 1 && Free(parts, sep)
    ensures Split(Join(parts, sep), sep) == parts
  {
    if |parts| == 1 {
      IndexOfSpec(parts[0], sep);
    } else {
      var s := Join(parts, sep);
      var tail := Join(parts[1..], sep);
      assert s == parts[0] + [sep] + tail;
      IndexOfJoined(parts[0], sep, tail);
      assert s[..|parts[0]|] == parts[0];
      assert s[|parts[0]| + 1..] == tail;
      SplitJoin(parts[1..], sep);
    }
  }

  lemma IndexOfPrefix(a: string, t: string, sep: char)
    requires IndexOf(a, sep) < |a|
    ensures IndexOf(a + t, sep) == IndexOf(a, sep)
  {
    var i := IndexOf(a, sep);
    var s := a + t;
    IndexOfSpec(a, sep);
    IndexOfSpec(s, sep);
    assert s[i] == sep;
    assert forall k :: 0 <= k < i ==> s[k] == a[k];
  }

  /** Splitting around one separator splits each side on its own. */
  lemma {:induction false} SplitAround(a: string, b: string, sep: char)
    ensures Split(a + [sep] + b, sep) == Split(a, sep) + Split(b, sep)
    decreases |a|
  {
    var s := a + [sep] + b;
    var i := IndexOf(a, sep);
    if i == |a| {
      IndexOfSpec(a, sep);
      IndexOfJoined(a, sep, b);
      assert s[..|a|] == a;
      assert s[|a| + 1..] == b;
    } else {
      var rest := a[i + 1..];
      SplitAround(rest, b, sep);
      SplitAroundFirst(a, b, sep);
      assert Split(a, sep) == [a[..i]] + Split(rest, sep);
      AppendAssoc([a[..i]], Split(rest, sep), Split(b, sep));
    }
  }

  /** One step of `SplitAround` when `a` itself holds a separator. */
  lemma SplitAroundFirst(a: string, b: string, sep: char)
    requires IndexOf(a, sep) < |a|
    ensures var i := IndexOf(a, sep);
            Split(a + [sep] + b, sep) == [a[..i]] + Split(a[i + 1..] + [sep] + b, sep)
  {
    var s := a + [sep] + b;
    var i := IndexOf(a, sep);
    IndexOfPrefix(a, [sep] + b, sep);
    assert s == a + ([sep] + b);
    assert s[..i] == a[..i];
    assert s[i + 1..] == a[i + 1..] + [sep] + b;
  }

  /**
   * `Char.equals(other, ignoreCase = true)` reduced to a fold: ASCII capitals
   * fold to lower case, and the four non-ASCII characters whose upper or
   * lower case is an ASCII letter (U+0130 and U+0131 for `i`, U+017F for `s`,
   * U+212A for `k`) fold to that letter. Other characters fold to themselves.
   */
  function FoldCase(c: char): char {
    if 'A' <= c <= 'Z' then (c as int + 32) as char
    else if c == '\U{0130}' || c == '\U{0131}' then 'i'
    else if c == '\U{017F}' then 's'
    else if c == '\U{212A}' then 'k'
    else c
  }

  /** `needle` matches `hay` at offset `at`, ignoring case. */
  ghost predicate MatchesAt(hay: string, needle: string, at: int)
  {
    0 <= at && at + |needle| <= |hay| &&
    forall k :: 0 <= k < |needle| ==> FoldCase(hay[at + k]) == FoldCase(needle[k])
  }

  function StartsWithIgnoreCase(hay: string, needle: string): bool
  {
    needle == [] ||
    (hay != [] && FoldCase(hay[0]) == FoldCase(needle[0]) &&
     StartsWithIgnoreCase(hay[1..], needle[1..]))
  }

  /** Kotlin's `hay.contains(needle, ignoreCase = true)`. */
  function ContainsIgnoreCase(hay: string, needle: string): bool
  {
    if StartsWithIgnoreCase(hay, needle) then true
    else if hay == [] then false
    else ContainsIgnoreCase(hay[1..], needle)
  }

  lemma {:induction false} StartsWithIgnoreCaseSpec(hay: string, needle: string)
    ensures StartsWithIgnoreCase(hay, needle) <==> MatchesAt(hay, needle, 0)
  {
    if needle != [] && hay != [] {
      StartsWithIgnoreCaseSpec(hay[1..], needle[1..]);
      if MatchesAt(hay, needle, 0) {
        forall k | 0 <= k < |needle| - 1
          ensures FoldCase(hay[1..][k]) == FoldCase(needle[1..][k])
        {
          assert FoldCase(hay[k + 1]) == FoldCase(needle[k + 1]);
        }
      }
      if StartsWithIgnoreCase(hay, needle) {
        forall k | 0 <= k < |needle|
          ensures FoldCase(hay[k]) == FoldCase(needle[k])
        {
          if k > 0 {
            assert FoldCase(hay[1..][k - 1]) == FoldCase(needle[1..][k - 1]);
          }
        }
      }
    }
  }

  /** `contains` holds exactly when the needle matches at some offset. */
  lemma {:induction false} ContainsIgnoreCaseSpec(hay: string, needle: string)
    ensures ContainsIgnoreCase(hay, needle) <==> exists at :: MatchesAt(hay, needle, at)
  {
    StartsWithIgnoreCaseSpec(hay, needle);
    if StartsWithIgnoreCase(hay, needle) {
    } else if hay == [] {
    } else {
      ContainsIgnoreCaseSpec(hay[1..], needle);
      if exists at :: MatchesAt(hay[1..], needle, at) {
        var at :| MatchesAt(hay[1..], needle, at);
        forall k | 0 <= k < |needle|
          ensures FoldCase(hay[at + 1 + k]) == FoldCase(needle[k])
        {
          assert hay[1..][at + k] == hay[at + 1 + k];
        }
        assert MatchesAt(hay, needle, at + 1);
      }
      if exists at :: MatchesAt(hay, needle, at) {
        var at :| MatchesAt(hay, needle, at);
        assert at != 0;
        forall k | 0 <= k < |needle|
          ensures FoldCase(hay[1..][at - 1 + k]) == FoldCase(needle[k])
        {
          assert hay[1..][at - 1 + k] == hay[at + k];
        }
        assert MatchesAt(hay[1..], needle, at - 1);
      }
    }
  }
}

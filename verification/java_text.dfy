/**
  The few `java.lang.String` operations the servers rely on, with Java's
  semantics: `split` (leading empty field kept, trailing empty fields
  dropped), `trim`, `isBlank`, `replaceAll` with a character class,
  `endsWith`, `String.join` and `equalsIgnoreCase` against an ASCII literal.
  Strings are sequences of Unicode scalar values.
*/
module JavaText {

  // ---------------------------------------------------------------------
  // Joining and splitting
  // ---------------------------------------------------------------------

  /** `String.join(sep, xs)`. */
  function Join(xs: seq<string>, sep: string): string
  {
    if |xs| == 0 then ""
    else if |xs| == 1 then xs[0]
    else xs[0] + sep + Join(xs[1..], sep)
  }

  /** Every field of `s` between occurrences of `d`, found left to right
      without overlap; empty fields are kept. */
  function SplitAll(s: string, d: string): (fields: seq<string>)
    requires |d| > 0
    ensures |fields| >= 1
    decreases |s|
  {
    if |s| < |d| then [s]
    else if s[..|d|] == d then [""] + SplitAll(s[|d|..], d)
    else
      var rest := SplitAll(s[1..], d);
      [[s[0]] + rest[0]] + rest[1..]
  }

  /** Removes the empty fields at the end of `xs`. */
  function DropTrailingEmpty(xs: seq<string>): (ys: seq<string>)
    ensures |ys| <= |xs| && ys == xs[..|ys|]
    ensures |ys| == 0 || ys[|ys| - 1] != ""
    ensures forall i | |ys| <= i < |xs| :: xs[i] == ""
  {
    if |xs| > 0 && xs[|xs| - 1] == "" then DropTrailingEmpty(xs[..|xs| - 1]) else xs
  }

  /** `s.split(d)` for a delimiter `d` that the regular expression engine
      reads literally: the empty string gives one empty field, and otherwise
      the trailing empty fields are dropped. */
  function Split(s: string, d: string): (parts: seq<string>)
    requires |d| > 0
  {
    if |s| == 0 then [""] else DropTrailingEmpty(SplitAll(s, d))
  }

  /** `x` does not contain `c`. */
  predicate FreeOf(x: string, c: char)
  {
    forall i | 0 <= i < |x| :: x[i] != c
  }

  /** No occurrence of `d` starts inside `x` (it is the last field). */
  predicate NoDelimiterIn(x: string, d: string)
    requires |d| > 0
  {
    forall i | 0 <= i && i + |d| <= |x| :: x[i] != d[0]
  }

  lemma {:induction false} JoinCons(c: char, x: string, ys: seq<string>, sep: string)
    ensures Join([[c] + x] + ys, sep) == [c] + Join([x] + ys, sep)
  {
  }

  /** Joining the fields back with the delimiter gives the original text. */
  lemma {:induction false} JoinSplitAll(s: string, d: string)
    requires |d| > 0
    ensures Join(SplitAll(s, d), d) == s
    decreases |s|
  {
    if |s| < |d| {
      assert SplitAll(s, d) == [s];
    } else if s[..|d|] == d {
      var tail := s[|d|..];
      var rest := SplitAll(tail, d);
      assert SplitAll(s, d) == [""] + rest;
      JoinSplitAll(tail, d);
      assert ([""] + rest)[1..] == rest;
      assert Join([""] + rest, d) == "" + d + Join(rest, d);
      assert s == d + tail;
    } else {
      var rest := SplitAll(s[1..], d);
      assert SplitAll(s, d) == [[s[0]] + rest[0]] + rest[1..];
      JoinSplitAll(s[1..], d);
      assert rest == [rest[0]] + rest[1..];
      JoinCons(s[0], rest[0], rest[1..], d);
      assert s == [s[0]] + s[1..];
    }
  }

  /** A field free of the delimiter's first character splits off intact. */
  lemma {:induction false} SplitAllField(x: string, d: string, rest: string)
    requires |d| > 0 && FreeOf(x, d[0])
    ensures SplitAll(x + d + rest, d) == [x] + SplitAll(rest, d)
    decreases |x|
  {
    var s := x + d + rest;
    if |x| == 0 {
      assert s == d + rest;
      assert s[..|d|] == d;
      assert s[|d|..] == rest;
    } else {
      assert s[..|d|][0] == x[0] != d[0];
      assert s[1..] == x[1..] + d + rest;
      SplitAllField(x[1..], d, rest);
      assert [s[0]] + x[1..] == x;
    }
  }

  /** Text in which no occurrence of the delimiter starts is a single field. */
  lemma {:induction false} SplitAllSingle(x: string, d: string)
    requires |d| > 0 && NoDelimiterIn(x, d)
    ensures SplitAll(x, d) == [x]
    decreases |x|
  {
    if |x| >= |d| {
      assert x[..|d|][0] == x[0] != d[0];
      SplitAllSingle(x[1..], d);
      assert [x[0]] + x[1..] == x;
    }
  }

  /** `SplitAll` undoes `Join` when no field hides the delimiter. */
  lemma {:induction false} SplitAllJoin(xs: seq<string>, d: string)
    requires |d| > 0 && |xs| > 0
    requires forall j | 0 <= j < |xs| - 1 :: FreeOf(xs[j], d[0])
    requires NoDelimiterIn(xs[|xs| - 1], d)
    ensures SplitAll(Join(xs, d), d) == xs
    decreases |xs|
  {
    if |xs| == 1 {
      SplitAllSingle(xs[0], d);
    } else {
      SplitAllJoin(xs[1..], d);
      SplitAllField(xs[0], d, Join(xs[1..], d));
      assert [xs[0]] + xs[1..] == xs;
    }
  }

  /** `split` undoes `String.join` when no field hides the delimiter and the
      last field is not empty. */
  lemma SplitJoin(xs: seq<string>, d: string)
    requires |d| > 0 && |xs| > 0 && xs[|xs| - 1] != ""
    requires forall j | 0 <= j < |xs| - 1 :: FreeOf(xs[j], d[0])
    requires NoDelimiterIn(xs[|xs| - 1], d)
    ensures Split(Join(xs, d), d) == xs
  {
    SplitAllJoin(xs, d);
    JoinSplitAll(Join(xs, d), d);
  }

  // ---------------------------------------------------------------------
  // Whitespace: trim and isBlank
  // ---------------------------------------------------------------------

  /** The characters `String.trim` removes: every code point up to U+0020. */
  predicate IsTrimmable(c: char)
  {
    c <= ' '
  }

  function TrimStart(s: string): (t: string)
    ensures |t| <= |s| && t == s[|s| - |t|..]
    ensures |t| > 0 ==> !IsTrimmable(t[0])
    ensures forall i | 0 <= i < |s| - |t| :: IsTrimmable(s[i])
  {
    if |s| > 0 && IsTrimmable(s[0]) then TrimStart(s[1..]) else s
  }

  function TrimEnd(s: string): (t: string)
    ensures |t| <= |s| && t == s[..|t|]
    ensures |t| > 0 ==> !IsTrimmable(t[|t| - 1])
    ensures forall i | |t| <= i < |s| :: IsTrimmable(s[i])
  {
    if |s| > 0 && IsTrimmable(s[|s| - 1]) then TrimEnd(s[..|s| - 1]) else s
  }

  /** `s.trim()`: `s` without its leading and trailing characters up to U+0020. */
  function Trim(s: string): (t: string)
    ensures |t| <= |s|
    ensures |t| > 0 ==> !IsTrimmable(t[0]) && !IsTrimmable(t[|t| - 1])
    ensures forall c | c in t :: c in s
  {
    TrimEnd(TrimStart(s))
  }

  /** Text made only of characters up to U+0020 trims to nothing. */
  lemma {:induction false} TrimBlank(s: string)
    requires forall j | 0 <= j < |s| :: IsTrimmable(s[j])
    ensures TrimStart(s) == "" && Trim(s) == ""
  {
    if |s| > 0 {
      TrimBlank(s[1..]);
    }
  }

  /** Text with nothing to trim at either end is left as it is. */
  lemma TrimClean(s: string)
    requires |s| > 0 ==> !IsTrimmable(s[0]) && !IsTrimmable(s[|s| - 1])
    ensures Trim(s) == s
  {
  }

  /** `Character.isWhitespace` (used by `String.isBlank`): the ASCII controls
      TAB, LF, VT, FF, CR and U+001C..U+001F, and every space, line or
      paragraph separator except the non-breaking ones. */
  predicate IsWhitespace(c: char)
  {
    || ('\t' <= c <= '\r')
    || ('\U{1C}' <= c <= ' ')
    || c == '\U{1680}'
    || ('\U{2000}' <= c <= '\U{2006}')
    || ('\U{2008}' <= c <= '\U{200A}')
    || c == '\U{2028}' || c == '\U{2029}' || c == '\U{205F}' || c == '\U{3000}'
  }

  /** `s.isBlank()`. */
  predicate IsBlank(s: string)
  {
    forall i | 0 <= i < |s| :: IsWhitespace(s[i])
  }

  // ---------------------------------------------------------------------
  // replaceAll with a character class, endsWith
  // ---------------------------------------------------------------------

  /** `s.replaceAll("[...]", "")`: every character of the class is deleted. */
  function RemoveChars(s: string, cs: set<char>): (r: string)
    ensures |r| <= |s|
    ensures forall i | 0 <= i < |r| :: r[i] !in cs
    ensures forall c | c in r :: c in s
  {
    if |s| == 0 then ""
    else (if s[0] in cs then "" else [s[0]]) + RemoveChars(s[1..], cs)
  }

  predicate Avoids(s: string, cs: set<char>)
  {
    forall i | 0 <= i < |s| :: s[i] !in cs
  }

  /** Deleting characters works piece by piece. */
  lemma {:induction false} RemoveCharsAppend(a: string, b: string, cs: set<char>)
    ensures RemoveChars(a + b, cs) == RemoveChars(a, cs) + RemoveChars(b, cs)
    decreases |a|
  {
    if |a| > 0 {
      assert (a + b)[1..] == a[1..] + b;
      RemoveCharsAppend(a[1..], b, cs);
    } else {
      assert a + b == b;
    }
  }

  /** Text holding none of the class is unchanged. */
  lemma {:induction false} RemoveCharsNone(s: string, cs: set<char>)
    requires Avoids(s, cs)
    ensures RemoveChars(s, cs) == s
    decreases |s|
  {
    if |s| > 0 {
      RemoveCharsNone(s[1..], cs);
      assert [s[0]] + s[1..] == s;
    }
  }

  lemma AvoidsAppend(a: string, b: string, cs: set<char>)
    ensures Avoids(a + b, cs) <==> Avoids(a, cs) && Avoids(b, cs)
  {
    if Avoids(a + b, cs) {
      forall i | 0 <= i < |a| ensures a[i] !in cs { assert a[i] == (a + b)[i]; }
      forall i | 0 <= i < |b| ensures b[i] !in cs { assert b[i] == (a + b)[|a| + i]; }
    }
    if Avoids(a, cs) && Avoids(b, cs) {
      forall i | 0 <= i < |a + b| ensures (a + b)[i] !in cs {
        if i < |a| { assert (a + b)[i] == a[i]; } else { assert (a + b)[i] == b[i - |a|]; }
      }
    }
  }

  /** Joining pieces that avoid a class with a separator that avoids it
      gives text that avoids it. */
  lemma {:induction false} AvoidsJoin(xs: seq<string>, sep: string, cs: set<char>)
    requires Avoids(sep, cs) && forall i | 0 <= i < |xs| :: Avoids(xs[i], cs)
    ensures Avoids(Join(xs, sep), cs)
    decreases |xs|
  {
    if |xs| > 1 {
      AvoidsJoin(xs[1..], sep, cs);
      AvoidsAppend(xs[0], sep, cs);
      AvoidsAppend(xs[0] + sep, Join(xs[1..], sep), cs);
    }
  }

  /** `s.endsWith(x)`. */
  predicate EndsWith(s: string, x: string)
  {
    |x| <= |s| && s[|s| - |x|..] == x
  }

  // ---------------------------------------------------------------------
  // equalsIgnoreCase against an ASCII literal
  // ---------------------------------------------------------------------

  /** The lower-case ASCII letter that `equalsIgnoreCase` identifies `c`
      with, or `c` itself. Besides the ASCII capitals, Java's case mapping
      sends U+0131 and U+0130 to i, U+017F to s and U+212A to k; no other
      character is identified with an ASCII letter. */
  function FoldCase(c: char): char
  {
    if 'A' <= c <= 'Z' then (c as int + 32) as char
    else if c == '\U{131}' || c == '\U{130}' then 'i'
    else if c == '\U{17F}' then 's'
    else if c == '\U{212A}' then 'k'
    else c
  }

  predicate IsAscii(s: string)
  {
    forall i | 0 <= i < |s| :: s[i] < '\U{80}'
  }

  /** `lit.equalsIgnoreCase(s)` for an ASCII literal `lit`. */
  predicate EqualsIgnoreCase(s: string, lit: string)
    requires IsAscii(lit)
  {
    |s| == |lit| && forall i | 0 <= i < |s| :: FoldCase(s[i]) == FoldCase(lit[i])
  }

}

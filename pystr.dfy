/**
 * The Python string built-ins that the reply-table parser of main.py relies on,
 * stated over `string` (a sequence of Unicode scalar values):
 *   `sub in s`        -> Contains
 *   `s.split(sep)`    -> SplitOn   (one-character separator)
 *   `s.strip(chars)`  -> Strip
 *   `s.strip()`       -> Trim      (Strip with the characters of str.isspace())
 *   `s.replace(',', '')` -> RemoveCommas
 */
module PyStr {

  /** The characters for which Python's `str.isspace()` holds; `str.strip()`
      without an argument removes exactly these from both ends. */
  const Whitespace: set<char> := {
    '\t', '\n', '\U{000B}', '\U{000C}', '\r',
    '\U{001C}', '\U{001D}', '\U{001E}', '\U{001F}', ' ',
    '\U{0085}', '\U{00A0}', '\U{1680}',
    '\U{2000}', '\U{2001}', '\U{2002}', '\U{2003}', '\U{2004}', '\U{2005}',
    '\U{2006}', '\U{2007}', '\U{2008}', '\U{2009}', '\U{200A}',
    '\U{2028}', '\U{2029}', '\U{202F}', '\U{205F}', '\U{3000}'
  }

  // ---------------------------------------------------------------------------
  // Substring containment: `sub in s`
  // ---------------------------------------------------------------------------

  predicate OccursAt(s: string, sub: string, i: nat) {
    i + |sub| <= |s| && s[i..i + |sub|] == sub
  }

  /** Python's `sub in s` for two strings. */
  predicate Contains(s: string, sub: string) {
    exists i :: 0 <= i <= |s| - |sub| && OccursAt(s, sub, i)
  }

  lemma SliceContained(s: string, lo: nat, hi: nat)
    requires lo <= hi <= |s|
    ensures Contains(s, s[lo..hi])
  {
    assert OccursAt(s, s[lo..hi], lo);
  }

  /** A substring of a substring is a substring. */
  lemma ContainsTransitive(s: string, t: string, u: string)
    requires Contains(s, t) && Contains(t, u)
    ensures Contains(s, u)
  {
    var i :| 0 <= i <= |s| - |t| && OccursAt(s, t, i);
    var j :| 0 <= j <= |t| - |u| && OccursAt(t, u, j);
    forall k | 0 <= k < |u| ensures s[i + j + k] == u[k] {
      assert u[k] == t[j + k] == s[i + j + k];
    }
    assert s[i + j..i + j + |u|] == u;
    assert OccursAt(s, u, i + j);
  }

  /** Every character of a substring occurs in the enclosing string. */
  lemma ContainedChar(s: string, t: string, c: char)
    requires Contains(s, t) && c in t
    ensures c in s
  {
    var i :| 0 <= i <= |s| - |t| && OccursAt(s, t, i);
    var k :| 0 <= k < |t| && t[k] == c;
    assert s[i + k] == t[k];
  }

  /** A string that lacks one of the characters of `sub` does not contain `sub`. */
  lemma MissingCharNotContained(s: string, sub: string, c: char)
    requires c in sub && c !in s
    ensures !Contains(s, sub)
  {
    if Contains(s, sub) {
      ContainedChar(s, sub, c);
    }
  }

  // ---------------------------------------------------------------------------
  // Splitting and joining on one separator character
  // ---------------------------------------------------------------------------

  /** Python's `s.split(sep)` for a one-character `sep`: the pieces between
      separators, at least one, possibly empty. */
  function SplitOn(s: string, sep: char): (parts: seq<string>)
    ensures |parts| >= 1
  {
    if s == [] then [[]]
    else
      var rest := SplitOn(s[1..], sep);
      if s[0] == sep then [[]] + rest
      else [[s[0]] + rest[0]] + rest[1..]
  }

  /** The pieces of a split hold no separator and each is a substring of the
      split string; the first piece is a prefix of it. */
  lemma {:induction false} SplitOnPieces(s: string, sep: char)
    ensures var parts := SplitOn(s, sep);
            && |parts[0]| <= |s| && parts[0] == s[..|parts[0]|]
            && forall k :: 0 <= k < |parts| ==> sep !in parts[k] && Contains(s, parts[k])
  {
    SliceContained(s, 0, 0);
    assert s[0..0] == [];
    if s != [] {
      var rest := SplitOn(s[1..], sep);
      SplitOnPieces(s[1..], sep);
      TailContainment(s, rest);
      if s[0] != sep {
        var first := [s[0]] + rest[0];
        assert first == s[..|first|];
        SliceContained(s, 0, |first|);
        assert s[0..|first|] == first;
      }
    }
  }

  lemma TailContainment(s: string, parts: seq<string>)
    requires |s| > 0
    requires forall k :: 0 <= k < |parts| ==> Contains(s[1..], parts[k])
    ensures forall k :: 0 <= k < |parts| ==> Contains(s, parts[k])
  {
    SliceContained(s, 1, |s|);
    assert s[1..|s|] == s[1..];
    forall k | 0 <= k < |parts| ensures Contains(s, parts[k]) {
      ContainsTransitive(s, s[1..], parts[k]);
    }
  }

  /** Python's `sep.join(parts)`. */
  function JoinWith(parts: seq<string>, sep: char): string {
    if |parts| == 0 then []
    else if |parts| == 1 then parts[0]
    else parts[0] + [sep] + JoinWith(parts[1..], sep)
  }

  lemma JoinConsFirst(c: char, parts: seq<string>, sep: char)
    requires |parts| >= 1
    ensures JoinWith([[c] + parts[0]] + parts[1..], sep) == [c] + JoinWith(parts, sep)
  {
    var q := [[c] + parts[0]] + parts[1..];
    assert q[1..] == parts[1..];
  }

  /** Joining the pieces of a split gives back the original string. */
  lemma {:induction false} JoinSplit(s: string, sep: char)
    ensures JoinWith(SplitOn(s, sep), sep) == s
  {
    if s != [] {
      var rest := SplitOn(s[1..], sep);
      JoinSplit(s[1..], sep);
      if s[0] == sep {
        assert ([[]] + rest)[1..] == rest;
      } else {
        JoinConsFirst(s[0], rest, sep);
      }
    }
  }

  lemma {:induction false} SplitWithoutSep(p: string, sep: char)
    requires sep !in p
    ensures SplitOn(p, sep) == [p]
  {
    if p != [] {
      SplitWithoutSep(p[1..], sep);
      assert p[0] != sep && [p[0]] + p[1..] == p;
    }
  }

  lemma {:induction false} SplitAfterPiece(p: string, sep: char, rest: string)
    requires sep !in p
    ensures SplitOn(p + [sep] + rest, sep) == [p] + SplitOn(rest, sep)
  {
    if p == [] {
      assert ([sep] + rest)[1..] == rest;
    } else {
      assert (p + [sep] + rest)[1..] == p[1..] + [sep] + rest;
      SplitAfterPiece(p[1..], sep, rest);
      assert [p[0]] + p[1..] == p;
    }
  }

  /** Splitting a join of separator-free pieces gives back the pieces. */
  lemma {:induction false} SplitJoin(parts: seq<string>, sep: char)
    requires |parts| >= 1
    requires forall k :: 0 <= k < |parts| ==> sep !in parts[k]
    ensures SplitOn(JoinWith(parts, sep), sep) == parts
  {
    if |parts| == 1 {
      SplitWithoutSep(parts[0], sep);
    } else {
      SplitJoin(parts[1..], sep);
      SplitAfterPiece(parts[0], sep, JoinWith(parts[1..], sep));
      assert [parts[0]] + parts[1..] == parts;
    }
  }

  // ---------------------------------------------------------------------------
  // Stripping characters from both ends
  // ---------------------------------------------------------------------------

  /** Python's `s.lstrip(cs)`. */
  function StripLeft(s: string, cs: set<char>): string {
    if s != [] && s[0] in cs then StripLeft(s[1..], cs) else s
  }

  /** Python's `s.rstrip(cs)`. */
  function StripRight(s: string, cs: set<char>): string {
    if s != [] && s[|s| - 1] in cs then StripRight(s[..|s| - 1], cs) else s
  }

  /** Python's `s.strip(cs)`. */
  function Strip(s: string, cs: set<char>): string {
    StripRight(StripLeft(s, cs), cs)
  }

  /** lstrip removes a prefix made of characters of `cs`, and what remains
      does not start with one. */
  lemma {:induction false} StripLeftSpec(s: string, cs: set<char>)
    ensures var r := StripLeft(s, cs);
            && |r| <= |s| && r == s[|s| - |r|..]
            && (forall k :: 0 <= k < |s| - |r| ==> s[k] in cs)
            && (r == [] || r[0] !in cs)
  {
    if s != [] && s[0] in cs {
      StripLeftSpec(s[1..], cs);
    }
  }

  /** rstrip removes a suffix made of characters of `cs`, and what remains
      does not end with one. */
  lemma {:induction false} StripRightSpec(s: string, cs: set<char>)
    ensures var r := StripRight(s, cs);
            && |r| <= |s| && r == s[..|r|]
            && (forall k :: |r| <= k < |s| ==> s[k] in cs)
            && (r == [] || r[|r| - 1] !in cs)
  {
    if s != [] && s[|s| - 1] in cs {
      StripRightSpec(s[..|s| - 1], cs);
    }
  }

  /** strip keeps a substring that neither starts nor ends with a character
      of `cs`, and it keeps nothing exactly when every character of `s` is in
      `cs`. */
  lemma StripSpec(s: string, cs: set<char>)
    ensures var r := Strip(s, cs);
            && Contains(s, r)
            && (r == [] || (r[0] !in cs && r[|r| - 1] !in cs))
            && (r == [] <==> forall k :: 0 <= k < |s| ==> s[k] in cs)
  {
    var l := StripLeft(s, cs);
    var r := StripRight(l, cs);
    StripLeftSpec(s, cs);
    StripRightSpec(l, cs);
    assert r != [] ==> r[0] == l[0] && s[|s| - |l|] == l[0];
    SliceContained(s, |s| - |l|, |s| - |l| + |r|);
    assert s[|s| - |l|..|s| - |l| + |r|] == r;
  }

  lemma {:induction false} StripLeftPrefix(a: string, m: string, cs: set<char>)
    requires forall k :: 0 <= k < |a| ==> a[k] in cs
    requires m != [] && m[0] !in cs
    ensures StripLeft(a + m, cs) == m
  {
    if a != [] {
      assert (a + m)[1..] == a[1..] + m;
      StripLeftPrefix(a[1..], m, cs);
    }
  }

  lemma {:induction false} StripRightSuffix(m: string, b: string, cs: set<char>)
    requires forall k :: 0 <= k < |b| ==> b[k] in cs
    requires m != [] && m[|m| - 1] !in cs
    ensures StripRight(m + b, cs) == m
  {
    if b != [] {
      assert (m + b)[..|m + b| - 1] == m + b[..|b| - 1];
      StripRightSuffix(m, b[..|b| - 1], cs);
    }
  }

  /** Strip is determined by its characterisation: whatever is put around a
      middle part that neither starts nor ends in `cs`, using only characters
      of `cs`, is exactly what Strip removes. */
  lemma StripSurrounded(a: string, m: string, b: string, cs: set<char>)
    requires forall k :: 0 <= k < |a| ==> a[k] in cs
    requires forall k :: 0 <= k < |b| ==> b[k] in cs
    requires m != [] && m[0] !in cs && m[|m| - 1] !in cs
    ensures Strip(a + m + b, cs) == m
  {
    assert a + m + b == a + (m + b);
    StripLeftPrefix(a, m + b, cs);
    StripRightSuffix(m, b, cs);
  }

  /** Stripping twice removes nothing more. */
  lemma StripIdempotent(s: string, cs: set<char>)
    ensures Strip(Strip(s, cs), cs) == Strip(s, cs)
  {
    var r := Strip(s, cs);
    StripSpec(s, cs);
    if r != [] {
      StripSurrounded([], r, [], cs);
      assert [] + r + [] == r;
    }
  }

  /** Python's `s.strip()`. */
  function Trim(s: string): string {
    Strip(s, Whitespace)
  }

  /** No leading and no trailing whitespace. */
  predicate Trimmed(t: string) {
    t == [] || (t[0] !in Whitespace && t[|t| - 1] !in Whitespace)
  }

  /** A string that begins and ends with a visible ASCII character has no
      surrounding whitespace. */
  lemma VisibleEndsTrimmed(t: string)
    requires t != [] && '!' <= t[0] <= '~' && '!' <= t[|t| - 1] <= '~'
    ensures Trimmed(t)
  {
  }

  // ---------------------------------------------------------------------------
  // Deleting thousands separators: `s.replace(',', '')`
  // ---------------------------------------------------------------------------

  /** Python's `s.replace(',', '')`. */
  function RemoveCommas(s: string): (r: string)
    ensures ',' !in r
    ensures |r| <= |s|
    ensures forall c :: c != ',' ==> multiset(r)[c] == multiset(s)[c]
  {
    if s == [] then []
    else
      assert s == [s[0]] + s[1..];
      (if s[0] == ',' then [] else [s[0]]) + RemoveCommas(s[1..])
  }

  /** Removing commas works piece by piece, so it keeps the order of what it keeps. */
  lemma {:induction false} RemoveCommasAppend(a: string, b: string)
    ensures RemoveCommas(a + b) == RemoveCommas(a) + RemoveCommas(b)
  {
    if a != [] {
      var head := if a[0] == ',' then [] else [a[0]];
      assert (a + b)[0] == a[0] && (a + b)[1..] == a[1..] + b;
      RemoveCommasAppend(a[1..], b);
      calc {
        RemoveCommas(a + b);
        head + RemoveCommas(a[1..] + b);
        head + (RemoveCommas(a[1..]) + RemoveCommas(b));
        (head + RemoveCommas(a[1..])) + RemoveCommas(b);
      }
    } else {
      assert a + b == b;
    }
  }

  /** A string without commas is left as it is. */
  lemma {:induction false} RemoveCommasNoComma(s: string)
    requires ',' !in s
    ensures RemoveCommas(s) == s
  {
    if s != [] {
      RemoveCommasNoComma(s[1..]);
    }
  }

  /** Removing commas is idempotent, and a cleaned string equals the cleaned
      form of itself with commas inserted anywhere. */
  lemma RemoveCommasIdempotent(s: string)
    ensures RemoveCommas(RemoveCommas(s)) == RemoveCommas(s)
  {
    RemoveCommasNoComma(RemoveCommas(s));
  }

  lemma RemoveCommasIgnoresInsertedComma(a: string, b: string)
    ensures RemoveCommas(a + [','] + b) == RemoveCommas(a + b)
  {
    RemoveCommasAppend(a + [','], b);
    RemoveCommasAppend(a, [',']);
    RemoveCommasAppend(a, b);
  }
}

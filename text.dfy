/** The .NET string operations the natural-language query pipeline is built
    from, as functions on `string` (that is, `seq<char>`):
    - `char.IsWhiteSpace`, `string.IsNullOrWhiteSpace` (on a non-null string)
      and `Trim`, with and without an explicit list of characters;
    - `ToLowerInvariant` and `ToUpperInvariant`, restricted to the letters
      whose case partner lies inside Latin-1;
    - ordinal substring search (`IndexOf`, `Contains`, `StartsWith`) and
      character search (`IndexOf(char)`, `LastIndexOf(char)`);
    - `Split(' ', StringSplitOptions.RemoveEmptyEntries)`;
    - the decimal rendering `int.ToString()` of a non-negative count. */
module Text {

  /* ------------------------------------------------------------------ */
  /* Character classes                                                    */
  /* ------------------------------------------------------------------ */

  /** `char.IsWhiteSpace`: U+0009..U+000D, the space separators and the
      line and paragraph separators. */
  predicate IsWhiteSpace(c: char) {
    || ('\U{9}' <= c <= '\U{D}')
    || c == ' ' || c == '\U{85}' || c == '\U{A0}' || c == '\U{1680}'
    || ('\U{2000}' <= c <= '\U{200A}')
    || c == '\U{2028}' || c == '\U{2029}' || c == '\U{202F}' || c == '\U{205F}'
    || c == '\U{3000}'
  }

  predicate IsQuote(c: char) {
    c == '"'
  }

  /** The characters removed by `Trim('.', '?', '!', ',', ';')`. */
  predicate IsEndPunctuation(c: char) {
    c == '.' || c == '?' || c == '!' || c == ',' || c == ';'
  }

  /** `string.IsNullOrWhiteSpace` for a string that is not null. */
  predicate IsBlank(s: string) {
    forall i | 0 <= i < |s| :: IsWhiteSpace(s[i])
  }

  /* ------------------------------------------------------------------ */
  /* Case mapping                                                         */
  /* ------------------------------------------------------------------ */

  /** Upper-case letters whose lower-case partner is in Latin-1:
      A..Z and U+00C0..U+00DE except the multiplication sign. */
  predicate IsUpperLetter(c: char) {
    ('A' <= c <= 'Z') || ('\U{C0}' <= c <= '\U{DE}' && c != '\U{D7}')
  }

  /** Lower-case letters whose upper-case partner is in Latin-1:
      a..z and U+00E0..U+00FE except the division sign. */
  predicate IsLowerLetter(c: char) {
    ('a' <= c <= 'z') || ('\U{E0}' <= c <= '\U{FE}' && c != '\U{F7}')
  }

  function LowerChar(c: char): char {
    if IsUpperLetter(c) then (c as int + 32) as char else c
  }

  function UpperChar(c: char): char {
    if IsLowerLetter(c) then (c as int - 32) as char else c
  }

  /** `ToLowerInvariant` (and the repository's `ToLower`). */
  function Lower(s: string): string {
    seq(|s|, i requires 0 <= i < |s| => LowerChar(s[i]))
  }

  /** `ToUpperInvariant`. */
  function Upper(s: string): string {
    seq(|s|, i requires 0 <= i < |s| => UpperChar(s[i]))
  }

  lemma CaseChar(c: char)
    ensures LowerChar(UpperChar(c)) == LowerChar(c)
    ensures UpperChar(LowerChar(c)) == UpperChar(c)
    ensures LowerChar(LowerChar(c)) == LowerChar(c)
    ensures UpperChar(UpperChar(c)) == UpperChar(c)
    ensures IsWhiteSpace(LowerChar(c)) == IsWhiteSpace(c)
    ensures IsWhiteSpace(UpperChar(c)) == IsWhiteSpace(c)
    ensures (LowerChar(c) == '"') == (c == '"')
    ensures (UpperChar(c) == '"') == (c == '"')
  {
  }

  /** Lower-casing forgets whatever upper-casing did first. */
  lemma LowerOfUpper(s: string)
    ensures Lower(Upper(s)) == Lower(s)
  {
    forall i | 0 <= i < |s| ensures Lower(Upper(s))[i] == Lower(s)[i] {
      CaseChar(s[i]);
    }
  }

  lemma UpperOfLower(s: string)
    ensures Upper(Lower(s)) == Upper(s)
  {
    forall i | 0 <= i < |s| ensures Upper(Lower(s))[i] == Upper(s)[i] {
      CaseChar(s[i]);
    }
  }

  lemma LowerIdempotent(s: string)
    ensures Lower(Lower(s)) == Lower(s)
  {
    forall i | 0 <= i < |s| ensures Lower(Lower(s))[i] == Lower(s)[i] {
      CaseChar(s[i]);
    }
  }

  lemma UpperIdempotent(s: string)
    ensures Upper(Upper(s)) == Upper(s)
  {
    forall i | 0 <= i < |s| ensures Upper(Upper(s))[i] == Upper(s)[i] {
      CaseChar(s[i]);
    }
  }

  lemma LowerAppend(a: string, b: string)
    ensures Lower(a + b) == Lower(a) + Lower(b)
  {
  }

  lemma UpperAppend(a: string, b: string)
    ensures Upper(a + b) == Upper(a) + Upper(b)
  {
  }

  lemma UpperSlice(s: string, i: nat, j: nat)
    requires i <= j <= |s|
    ensures Upper(s[i..j]) == Upper(s)[i..j]
  {
  }

  /** Case mapping neither creates nor removes white space or quotes. */
  lemma CaseKeepsBlankAndQuotes(s: string)
    ensures IsBlank(Lower(s)) == IsBlank(s) && IsBlank(Upper(s)) == IsBlank(s)
    ensures ('"' in Lower(s)) == ('"' in s) && ('"' in Upper(s)) == ('"' in s)
  {
    forall i | 0 <= i < |s|
      ensures IsWhiteSpace(Lower(s)[i]) == IsWhiteSpace(s[i])
      ensures IsWhiteSpace(Upper(s)[i]) == IsWhiteSpace(s[i])
      ensures (Lower(s)[i] == '"') == (s[i] == '"') == (Upper(s)[i] == '"')
    {
      CaseChar(s[i]);
    }
  }

  /** Text without upper-case letters is its own lower case. */
  lemma LowerKeeps(s: string)
    requires forall i | 0 <= i < |s| :: !IsUpperLetter(s[i])
    ensures Lower(s) == s
  {
  }

  /** Lower-casing `a + "\"" + v + "\""` lower-cases the two parts and keeps
      the quotes. */
  lemma LowerQuoted(a: string, v: string)
    ensures Lower(a + "\"" + v + "\"") == Lower(a) + "\"" + Lower(v) + "\""
  {
    LowerAppend(a, "\"");
    LowerAppend(a + "\"", v);
    LowerAppend(a + "\"" + v, "\"");
  }

  /* ------------------------------------------------------------------ */
  /* Trimming                                                             */
  /* ------------------------------------------------------------------ */

  /** Drops the leading characters that `strip` selects. */
  function TrimStartWhere(s: string, strip: char -> bool): (r: string)
    ensures |r| <= |s| && r == s[|s| - |r|..]
    ensures forall i | 0 <= i < |s| - |r| :: strip(s[i])
    ensures r == [] || !strip(r[0])
    decreases |s|
  {
    if s != [] && strip(s[0]) then TrimStartWhere(s[1..], strip) else s
  }

  /** Drops the trailing characters that `strip` selects. */
  function TrimEndWhere(s: string, strip: char -> bool): (r: string)
    ensures |r| <= |s| && r == s[..|r|]
    ensures forall i | |r| <= i < |s| :: strip(s[i])
    ensures r == [] || !strip(r[|r| - 1])
    decreases |s|
  {
    if s != [] && strip(s[|s| - 1]) then TrimEndWhere(s[..|s| - 1], strip) else s
  }

  /** `Trim(chars)`: both ends. */
  function TrimWhere(s: string, strip: char -> bool): (r: string)
    ensures |r| <= |s|
    ensures r == [] || (!strip(r[0]) && !strip(r[|r| - 1]))
  {
    TrimEndWhere(TrimStartWhere(s, strip), strip)
  }

  /** A string whose two ends are kept is left as it is. */
  lemma TrimWhereKeeps(s: string, strip: char -> bool)
    requires s == [] || (!strip(s[0]) && !strip(s[|s| - 1]))
    ensures TrimWhere(s, strip) == s
  {
    assert TrimStartWhere(s, strip) == s;
    assert TrimEndWhere(s, strip) == s;
  }

  /** Trimming a stripped character in front changes nothing. */
  lemma TrimWhereDropsFirst(c: char, s: string, strip: char -> bool)
    requires strip(c)
    ensures TrimWhere([c] + s, strip) == TrimWhere(s, strip)
  {
    assert ([c] + s)[1..] == s;
  }

  /** Leading stripped characters in front of a kept one are all dropped. */
  lemma {:induction false} TrimStartPast(a: string, t: string, strip: char -> bool)
    requires forall i | 0 <= i < |a| :: strip(a[i])
    requires t == [] || !strip(t[0])
    ensures TrimStartWhere(a + t, strip) == t
  {
    if a == [] {
      assert a + t == t;
    } else {
      assert (a + t)[0] == a[0];
      assert (a + t)[1..] == a[1..] + t;
      TrimStartPast(a[1..], t, strip);
    }
  }

  /** Trailing stripped characters after a kept one are all dropped. */
  lemma {:induction false} TrimEndPast(t: string, b: string, strip: char -> bool)
    requires forall i | 0 <= i < |b| :: strip(b[i])
    requires t == [] || !strip(t[|t| - 1])
    ensures TrimEndWhere(t + b, strip) == t
  {
    if b == [] {
      assert t + b == t;
    } else {
      var s := t + b;
      assert s[|s| - 1] == b[|b| - 1];
      assert s[..|s| - 1] == t + b[..|b| - 1];
      TrimEndPast(t, b[..|b| - 1], strip);
    }
  }

  /** Trimming `a + m + b`, where every character of `a` and `b` is stripped
      and both ends of `m` are kept, gives `m`. */
  lemma TrimWhereInner(a: string, m: string, b: string, strip: char -> bool)
    requires forall i | 0 <= i < |a| :: strip(a[i])
    requires forall i | 0 <= i < |b| :: strip(b[i])
    requires m != [] && !strip(m[0]) && !strip(m[|m| - 1])
    ensures TrimWhere(a + m + b, strip) == m
  {
    assert a + m + b == a + (m + b);
    assert (m + b)[0] == m[0];
    TrimStartPast(a, m + b, strip);
    TrimEndPast(m, b, strip);
  }

  /** `Trim()`. */
  function Trim(s: string): string {
    TrimWhere(s, IsWhiteSpace)
  }

  /** A leading space is trimmed away from text that has no white space at
      its ends. */
  lemma TrimLeadingSpace(m: string)
    requires m != [] && !IsWhiteSpace(m[0]) && !IsWhiteSpace(m[|m| - 1])
    ensures Trim(" " + m) == m
  {
    TrimWhereInner(" ", m, [], IsWhiteSpace);
    assert " " + m + [] == " " + m;
  }

  /* ------------------------------------------------------------------ */
  /* Substring search                                                     */
  /* ------------------------------------------------------------------ */

  predicate MatchesAt(s: string, p: string, k: nat) {
    k + |p| <= |s| && s[k..k + |p|] == p
  }

  /** The first position at or after `from` where `p` occurs, or -1. */
  function IndexOfFrom(s: string, p: string, from: nat): (r: int)
    ensures r == -1 || (from <= r && MatchesAt(s, p, r))
    ensures forall k: nat | from <= k && (r == -1 || k < r) :: !MatchesAt(s, p, k)
    decreases |s| - from
  {
    if |s| < from + |p| then -1
    else if MatchesAt(s, p, from) then from
    else IndexOfFrom(s, p, from + 1)
  }

  /** Ordinal `IndexOf(string)`. */
  function IndexOf(s: string, p: string): (r: int)
    ensures r == -1 <==> forall k: nat :: !MatchesAt(s, p, k)
    ensures r >= 0 ==> MatchesAt(s, p, r) && forall k: nat | k < r :: !MatchesAt(s, p, k)
  {
    IndexOfFrom(s, p, 0)
  }

  /** Ordinal `Contains(string)`. */
  predicate Contains(s: string, p: string) {
    IndexOf(s, p) >= 0
  }

  /** `StartsWith(string)`, compared ordinally. */
  predicate StartsWith(s: string, p: string) {
    MatchesAt(s, p, 0)
  }

  lemma ContainsAt(s: string, p: string, k: nat)
    requires MatchesAt(s, p, k)
    ensures Contains(s, p)
  {
  }

  lemma ContainsInMiddle(a: string, p: string, b: string)
    ensures Contains(a + p + b, p)
  {
    assert (a + p + b)[|a|..|a| + |p|] == p;
    ContainsAt(a + p + b, p, |a|);
  }

  /** Text holding a pattern that starts with a visible character is not
      blank. */
  lemma ContainsVisible(s: string, p: string)
    requires p != [] && !IsWhiteSpace(p[0]) && Contains(s, p)
    ensures !IsBlank(s)
  {
    var k := IndexOf(s, p);
    assert s[k] == s[k..k + |p|][0] == p[0];
  }

  lemma ContainsEmpty(s: string)
    ensures Contains(s, [])
  {
    ContainsAt(s, [], 0);
  }

  /** An occurrence stays an occurrence when text is added on either side. */
  lemma ContainsExtend(a: string, p: string, b: string)
    requires Contains(a, p)
    ensures Contains(a + b, p) && Contains(b + a, p)
  {
    var k := IndexOf(a, p);
    assert (a + b)[k..k + |p|] == a[k..k + |p|];
    ContainsAt(a + b, p, k);
    assert (b + a)[|b| + k..|b| + k + |p|] == a[k..k + |p|];
    ContainsAt(b + a, p, |b| + k);
  }

  lemma ContainsTransitive(a: string, b: string, c: string)
    requires Contains(a, b) && Contains(b, c)
    ensures Contains(a, c)
  {
    var i, j := IndexOf(a, b), IndexOf(b, c);
    assert a[i..i + |b|] == b;
    forall k | 0 <= k < |c|
      ensures a[i + j..i + j + |c|][k] == c[k]
    {
      assert a[i + j..i + j + |c|][k] == a[i..i + |b|][j + k];
      assert b[j..j + |c|][k] == c[k];
    }
    assert a[i + j..i + j + |c|] == c;
    ContainsAt(a, c, i + j);
  }

  /** A string shorter than the pattern cannot contain it. */
  lemma NotContainsShort(s: string, p: string)
    requires |s| < |p|
    ensures !Contains(s, p)
  {
  }

  /** A pattern with a character the text lacks does not occur in it. */
  lemma NotContainsMissingChar(s: string, p: string, c: char)
    requires c in p && c !in s
    ensures !Contains(s, p)
  {
    var j :| 0 <= j < |p| && p[j] == c;
    forall k: nat | k + |p| <= |s| ensures !MatchesAt(s, p, k) {
      assert s[k..k + |p|][j] == s[k + j] != c;
    }
  }

  /** A pattern that does not contain the separator `c` occurs in `a + [c] + b`
      only if it occurs in `a` or in `b`. */
  lemma NotContainsJoin(a: string, c: char, b: string, p: string)
    requires c !in p && !Contains(a, p) && !Contains(b, p)
    ensures !Contains(a + [c] + b, p)
  {
    var s := a + [c] + b;
    forall k: nat | k + |p| <= |s| ensures !MatchesAt(s, p, k) {
      if k + |p| <= |a| {
        assert a[k..k + |p|] == s[k..k + |p|];
        assert !MatchesAt(a, p, k);
      } else if k > |a| {
        assert b[k - |a| - 1..k - |a| - 1 + |p|] == s[k..k + |p|];
        assert !MatchesAt(b, p, k - |a| - 1);
      } else {
        assert s[k..k + |p|][|a| - k] == c;
      }
    }
  }

  /** When `p[j]` is missing from `x` and `y` is too short to hold what
      follows position `j` of `p`, the pattern does not occur in `x + y`. */
  lemma NotContainsSplitAt(x: string, y: string, p: string, j: nat)
    requires j < |p| && p[j] !in x && |y| < |p| - j
    ensures !Contains(x + y, p)
  {
    var s := x + y;
    forall k: nat | k + |p| <= |s| ensures !MatchesAt(s, p, k) {
      assert s[k..k + |p|][j] == x[k + j] != p[j];
    }
  }

  /** A text as long as the pattern but different from it does not contain it. */
  lemma NotContainsSameLength(s: string, p: string)
    requires |s| == |p| && s != p
    ensures !Contains(s, p)
  {
    forall k: nat | k + |p| <= |s| ensures !MatchesAt(s, p, k) {
      assert s[k..k + |p|] == s;
    }
  }

  /** Text in front that lacks the first character of `p` neither adds nor
      removes an occurrence. */
  lemma ContainsAfter(a: string, b: string, p: string)
    requires p != [] && p[0] !in a
    ensures Contains(a + b, p) <==> Contains(b, p)
  {
    if Contains(b, p) {
      ContainsExtend(b, p, a);
    }
    if Contains(a + b, p) {
      var k := IndexOf(a + b, p);
      assert (a + b)[k..k + |p|][0] == (a + b)[k];
      assert b[k - |a|..k - |a| + |p|] == (a + b)[k..k + |p|];
      ContainsAt(b, p, k - |a|);
    }
  }

  /** A one-character pattern occurs exactly when the character does. */
  lemma ContainsChar(s: string, c: char)
    ensures Contains(s, [c]) <==> c in s
  {
    if c in s {
      var i :| 0 <= i < |s| && s[i] == c;
      assert s[i..i + 1] == [c];
      ContainsAt(s, [c], i);
    } else {
      NotContainsMissingChar(s, [c], c);
    }
  }

  /** `IndexOf` finds an occurrence that has none before it. */
  lemma IndexOfIs(s: string, p: string, i: nat)
    requires MatchesAt(s, p, i) && forall k: nat | k < i :: !MatchesAt(s, p, k)
    ensures IndexOf(s, p) == i
  {
  }

  /** In `pre + p + rest`, the marked `p` is the first occurrence when `p`
      does not already occur in `pre` followed by all of `p` but its last
      character (any earlier occurrence would lie inside that text). */
  lemma FirstOccurrence(pre: string, p: string, rest: string)
    requires p != [] && !Contains(pre + p[..|p| - 1], p)
    ensures IndexOf(pre + p + rest, p) == |pre|
  {
    var s := pre + p + rest;
    var t := pre + p[..|p| - 1];
    assert p == p[..|p| - 1] + [p[|p| - 1]];
    assert s == t + ([p[|p| - 1]] + rest);
    assert s[..|t|] == t;
    assert s[|pre|..|pre| + |p|] == p;
    forall k: nat | k < |pre| ensures !MatchesAt(s, p, k) {
      assert s[k..k + |p|] == s[..|t|][k..k + |p|];
      assert !MatchesAt(t, p, k);
    }
    IndexOfIs(s, p, |pre|);
  }

  /** A text as long as the pattern contains it only by being equal to it. */
  lemma ContainsSameLength(s: string, p: string)
    requires |s| == |p| && Contains(s, p)
    ensures s == p
  {
  }

  /* ------------------------------------------------------------------ */
  /* Character search                                                     */
  /* ------------------------------------------------------------------ */

  /** `IndexOf(char)`: the first position of `c`, or -1. */
  function IndexOfChar(s: string, c: char): (r: int)
    ensures -1 <= r < |s|
    ensures r == -1 <==> c !in s
    ensures r >= 0 ==> r < |s| && s[r] == c && c !in s[..r]
  {
    if s == [] then -1
    else if s[0] == c then 0
    else
      var r := IndexOfChar(s[1..], c);
      assert s[1..][..if r < 0 then 0 else r] == s[1..if r < 0 then 1 else r + 1];
      if r < 0 then -1 else r + 1
  }

  /** `LastIndexOf(char)`: the last position of `c`, or -1. */
  function LastIndexOfChar(s: string, c: char): (r: int)
    ensures -1 <= r < |s|
    ensures r == -1 <==> c !in s
    ensures r >= 0 ==> r < |s| && s[r] == c && c !in s[r + 1..]
  {
    if s == [] then -1
    else
      var r := LastIndexOfChar(s[1..], c);
      if r >= 0 then
        assert s[r + 1] == s[1..][r];
        assert s[r + 2..] == s[1..][r + 1..];
        r + 1
      else if s[0] == c then 0
      else
        assert s == [s[0]] + s[1..];
        -1
  }

  /** Two distinct positions holding `c` mean `c` occurs at least twice. */
  lemma TwoOccurrences(s: string, c: char, i: nat, j: nat)
    requires i < j < |s| && s[i] == c && s[j] == c
    ensures multiset(s)[c] >= 2
  {
    assert s == s[..i] + [s[i]] + s[i + 1..j] + [s[j]] + s[j + 1..];
  }

  /** In `a + [c] + m + [c] + b`, with `c` absent from `a` and from `b`, the
      two marked positions are the first and the last `c`. */
  lemma FirstAndLastChar(a: string, m: string, b: string, c: char)
    requires c !in a && c !in b
    ensures IndexOfChar(a + [c] + m + [c] + b, c) == |a|
    ensures LastIndexOfChar(a + [c] + m + [c] + b, c) == |a| + 1 + |m|
    ensures (a + [c] + m + [c] + b)[|a| + 1..|a| + 1 + |m|] == m
  {
    var s := a + [c] + m + [c] + b;
    assert s[|a| + 1..|a| + 1 + |m|] == m;
    assert s[..|a|] == a;
    IndexOfCharIs(s, c, |a|);
    assert s[|a| + 1 + |m| + 1..] == b;
    LastIndexOfCharIs(s, c, |a| + 1 + |m|);
  }

  lemma IndexOfCharIs(s: string, c: char, i: nat)
    requires i < |s| && s[i] == c && c !in s[..i]
    ensures IndexOfChar(s, c) == i
  {
    var r := IndexOfChar(s, c);
    assert c in s;
    assert forall j | 0 <= j < r :: s[..r][j] == s[j] != c;
    assert forall j | 0 <= j < i :: s[..i][j] == s[j] != c;
  }

  lemma LastIndexOfCharIs(s: string, c: char, i: nat)
    requires i < |s| && s[i] == c && c !in s[i + 1..]
    ensures LastIndexOfChar(s, c) == i
  {
    var r := LastIndexOfChar(s, c);
    assert c in s;
    assert forall j | r < j < |s| :: s[r + 1..][j - r - 1] == s[j] != c;
    assert forall j | i < j < |s| :: s[i + 1..][j - i - 1] == s[j] != c;
  }

  /* ------------------------------------------------------------------ */
  /* Split(' ', RemoveEmptyEntries)                                       */
  /* ------------------------------------------------------------------ */

  /** Length of the run of non-space characters at the front of `s`. */
  function WordLength(s: string): (n: nat)
    ensures n <= |s| && ' ' !in s[..n] && (n == |s| || s[n] == ' ')
  {
    if s == [] || s[0] == ' ' then 0
    else
      var n := WordLength(s[1..]);
      assert s[..n + 1] == [s[0]] + s[1..][..n];
      n + 1
  }

  /** `s` with every occurrence of `c` removed. */
  function RemoveChar(s: string, c: char): string {
    if s == [] then []
    else (if s[0] == c then [] else [s[0]]) + RemoveChar(s[1..], c)
  }

  function Concat(ws: seq<string>): string {
    if ws == [] then [] else ws[0] + Concat(ws[1..])
  }

  lemma RemoveCharAppend(a: string, b: string, c: char)
    ensures RemoveChar(a + b, c) == RemoveChar(a, c) + RemoveChar(b, c)
  {
    if a == [] {
      assert a + b == b;
    } else {
      assert (a + b)[0] == a[0];
      assert (a + b)[1..] == a[1..] + b;
      RemoveCharAppend(a[1..], b, c);
    }
  }

  lemma RemoveCharAbsent(s: string, c: char)
    requires c !in s
    ensures RemoveChar(s, c) == s
  {
    if s != [] {
      RemoveCharAbsent(s[1..], c);
    }
  }

  /** `Split(' ', StringSplitOptions.RemoveEmptyEntries)`: the maximal runs of
      characters other than the space, in order. Nothing but the spaces is
      lost: the tokens put back together are `s` without its spaces. */
  function SplitOnSpace(s: string): (r: seq<string>)
    ensures forall i | 0 <= i < |r| :: r[i] != [] && ' ' !in r[i]
    ensures Concat(r) == RemoveChar(s, ' ')
    decreases |s|
  {
    if s == [] then []
    else if s[0] == ' ' then SplitOnSpace(s[1..])
    else
      var n := WordLength(s);
      var r := [s[..n]] + SplitOnSpace(s[n..]);
      assert s == s[..n] + s[n..];
      RemoveCharAppend(s[..n], s[n..], ' ');
      RemoveCharAbsent(s[..n], ' ');
      assert r[1..] == SplitOnSpace(s[n..]);
      r
  }

  /** A word followed by nothing or by a space is the first token. */
  lemma {:induction false} WordLengthOf(w: string, rest: string)
    requires ' ' !in w && (rest == [] || rest[0] == ' ')
    ensures WordLength(w + rest) == |w|
  {
    if w != [] {
      assert (w + rest)[0] == w[0] != ' ';
      assert (w + rest)[1..] == w[1..] + rest;
      assert ' ' !in w[1..];
      WordLengthOf(w[1..], rest);
    } else {
      assert w + rest == rest;
    }
  }

  lemma SplitOneWord(w: string)
    requires w != [] && ' ' !in w
    ensures SplitOnSpace(w) == [w]
  {
    WordLengthOf(w, []);
    assert w + [] == w;
  }

  /** Spaces in front of the text produce no token. */
  lemma {:induction false} SplitSkipsSpaces(gap: string, t: string)
    requires forall i | 0 <= i < |gap| :: gap[i] == ' '
    ensures SplitOnSpace(gap + t) == SplitOnSpace(t)
    decreases |gap|
  {
    if gap != [] {
      assert (gap + t)[0] == ' ';
      assert (gap + t)[1..] == gap[1..] + t;
      assert SplitOnSpace(gap + t) == SplitOnSpace(gap[1..] + t);
      SplitSkipsSpaces(gap[1..], t);
    } else {
      assert gap + t == t;
    }
  }

  /** A word followed by nothing or by a space is the first token, and the
      rest of the text gives the remaining tokens. */
  lemma SplitFirstWord(w: string, t: string)
    requires w != [] && ' ' !in w && (t == [] || t[0] == ' ')
    ensures SplitOnSpace(w + t) == [w] + SplitOnSpace(t)
  {
    WordLengthOf(w, t);
    assert (w + t)[..|w|] == w;
    assert (w + t)[|w|..] == t;
  }

  /** Two words separated by spaces, then nothing or a space: they are the
      first two tokens, whatever follows. */
  lemma SplitLeadingWords(w1: string, gap: string, w2: string, rest: string)
    requires w1 != [] && ' ' !in w1 && w2 != [] && ' ' !in w2
    requires gap != [] && forall i | 0 <= i < |gap| :: gap[i] == ' '
    requires rest == [] || rest[0] == ' '
    ensures var r := SplitOnSpace(w1 + gap + w2 + rest);
      |r| >= 2 && r[0] == w1 && r[1] == w2
  {
    assert w1 + gap + w2 + rest == w1 + (gap + (w2 + rest));
    SplitFirstWord(w1, gap + (w2 + rest));
    SplitSkipsSpaces(gap, w2 + rest);
    SplitFirstWord(w2, rest);
  }

  lemma SplitTwoWords(w1: string, w2: string)
    requires w1 != [] && ' ' !in w1 && w2 != [] && ' ' !in w2
    ensures SplitOnSpace(w1 + " " + w2) == [w1, w2]
  {
    var s := w1 + " " + w2;
    WordLengthOf(w1, " " + w2);
    assert s == w1 + (" " + w2);
    assert s[|w1|..] == " " + w2;
    assert (" " + w2)[1..] == w2;
    SplitOneWord(w2);
  }

  /* ------------------------------------------------------------------ */
  /* Decimal rendering                                                    */
  /* ------------------------------------------------------------------ */

  predicate IsDigit(c: char) {
    '0' <= c <= '9'
  }

  function DigitChar(d: nat): char
    requires d < 10
  {
    ('0' as int + d) as char
  }

  /** `int.ToString()` for a non-negative value: decimal digits, with no
      leading zero unless the value is zero. */
  function NatToString(n: nat): (r: string)
    ensures r != [] && forall i | 0 <= i < |r| :: IsDigit(r[i])
    ensures (r[0] == '0') == (n == 0)
    decreases n
  {
    if n < 10 then [DigitChar(n)] else NatToString(n / 10) + [DigitChar(n % 10)]
  }

  /** The number a string of decimal digits denotes. */
  function DecimalValue(s: string): nat {
    if s == [] then 0
    else
      var c := s[|s| - 1];
      10 * DecimalValue(s[..|s| - 1]) + (if IsDigit(c) then c as int - '0' as int else 0)
  }

  lemma {:induction false} DecimalRoundTrip(n: nat)
    ensures DecimalValue(NatToString(n)) == n
  {
    if n >= 10 {
      DecimalRoundTrip(n / 10);
      var s := NatToString(n);
      assert s[..|s| - 1] == NatToString(n / 10);
    }
  }
}

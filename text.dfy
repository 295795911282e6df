/**
 * The string operations of the Java and JavaScript standard libraries that the
 * modelled code relies on, written out over `string` (a sequence of characters).
 * Each one follows the library's documented behaviour for the cases the
 * application reaches; the lemmas state the facts the other modules use.
 */
module Text {
  import opened Wrappers

  // ---------------------------------------------------------------------------
  // Prefixes, suffixes and occurrences

  predicate StartsWith(s: string, p: string) { |p| <= |s| && s[..|p|] == p }

  predicate EndsWith(s: string, p: string) { |p| <= |s| && s[|s| - |p|..] == p }

  /** `p` occurs in `s` starting at index `i`. */
  predicate ContainsAt(s: string, p: string, i: int) {
    0 <= i && i + |p| <= |s| && s[i..i + |p|] == p
  }

  /** Java `String.contains`, JavaScript `String.prototype.includes`. */
  predicate Contains(s: string, p: string) {
    exists i | 0 <= i <= |s| - |p| :: ContainsAt(s, p, i)
  }

  lemma ContainsSelf(p: string)
    ensures Contains(p, p)
  {
    assert ContainsAt(p, p, 0);
  }

  /** An occurrence survives putting text in front. */
  lemma ContainsPrepend(a: string, s: string, p: string)
    requires Contains(s, p)
    ensures Contains(a + s, p)
  {
    var i :| 0 <= i <= |s| - |p| && ContainsAt(s, p, i);
    assert (a + s)[|a| + i..|a| + i + |p|] == s[i..i + |p|];
    assert ContainsAt(a + s, p, |a| + i);
  }

  /** An occurrence survives appending text. */
  lemma ContainsAppend(s: string, b: string, p: string)
    requires Contains(s, p)
    ensures Contains(s + b, p)
  {
    var i :| 0 <= i <= |s| - |p| && ContainsAt(s, p, i);
    assert (s + b)[i..i + |p|] == s[i..i + |p|];
    assert ContainsAt(s + b, p, i);
  }

  /** The first occurrence of `p` in `s` at or after `k`, or -1 (Java `indexOf(p, k)`). */
  function IndexOfFrom(s: string, p: string, k: nat): (r: int)
    requires k <= |s|
    ensures r == -1 || (k <= r && ContainsAt(s, p, r))
    ensures r == -1 ==> forall j | k <= j :: !ContainsAt(s, p, j)
    ensures r >= 0 ==> forall j | k <= j < r :: !ContainsAt(s, p, j)
    decreases |s| - k
  {
    if k + |p| > |s| then -1
    else if s[k..k + |p|] == p then k
    else IndexOfFrom(s, p, k + 1)
  }

  function IndexOf(s: string, p: string): (r: int)
    ensures r == -1 <==> !Contains(s, p)
    ensures r >= 0 ==> ContainsAt(s, p, r) && forall j | 0 <= j < r :: !ContainsAt(s, p, j)
  {
    IndexOfFrom(s, p, 0)
  }

  /** Java `lastIndexOf(c)`: the last index holding `c`, or -1. */
  function LastIndexOfChar(s: string, c: char): (r: int)
    ensures -1 <= r < |s|
    ensures r == -1 <==> c !in s
    ensures r >= 0 ==> s[r] == c && forall j | r < j < |s| :: s[j] != c
  {
    if |s| == 0 then -1
    else if s[|s| - 1] == c then |s| - 1
    else LastIndexOfChar(s[..|s| - 1], c)
  }

  /** `s.substring(s.lastIndexOf(c) + 1)`: the text after the last `c`, all of `s` when it has none. */
  function AfterLast(s: string, c: char): (r: string)
    ensures c !in r
    ensures c !in s ==> r == s
    ensures c in s ==> |r| < |s| && s[|s| - |r| - 1] == c && s[|s| - |r|..] == r
  {
    var i := LastIndexOfChar(s, c);
    var r := s[i + 1..];
    assert forall k | 0 <= k < |r| :: r[k] == s[i + 1 + k];
    r
  }

  /** What follows the last separator comes back out of a joined string. */
  lemma AfterLastRoundTrip(pre: string, c: char, post: string)
    requires c !in post
    ensures AfterLast(pre + [c] + post, c) == post
  {
    var s := pre + [c] + post;
    assert s[|pre|] == c;
    assert forall j | |pre| < j < |s| :: s[j] == post[j - |pre| - 1];
    assert LastIndexOfChar(s, c) == |pre|;
    assert s[|pre| + 1..] == post;
  }

  // ---------------------------------------------------------------------------
  // Java `String.split` with a regular expression that matches one literal string

  /** `pieces` joined back together with `sep` between consecutive pieces. */
  function JoinWith(pieces: seq<string>, sep: string): string {
    if |pieces| == 0 then ""
    else if |pieces| == 1 then pieces[0]
    else pieces[0] + sep + JoinWith(pieces[1..], sep)
  }

  /** Cuts `s` at every occurrence of `sep`, scanning left to right, keeping every piece. */
  function SplitAll(s: string, sep: string): (r: seq<string>)
    requires |sep| > 0
    ensures |r| >= 1
    decreases |s|
  {
    var i := IndexOf(s, sep);
    if i < 0 then [s] else [s[..i]] + SplitAll(s[i + |sep|..], sep)
  }

  function DropTrailingEmpty(r: seq<string>): (t: seq<string>)
    ensures |t| <= |r| && t == r[..|t|]
    ensures |t| > 0 ==> t[|t| - 1] != ""
    ensures forall k | |t| <= k < |r| :: r[k] == ""
  {
    if |r| > 0 && r[|r| - 1] == "" then DropTrailingEmpty(r[..|r| - 1]) else r
  }

  /**
   * Java `s.split(regex)` where the regex matches exactly the non-empty literal `sep`:
   * with no match the result is `[s]` itself; otherwise the pieces between the
   * matches (a leading empty piece kept), with trailing empty pieces removed,
   * which leaves no piece at all when every piece is empty.
   */
  function JavaSplit(s: string, sep: string): (r: seq<string>)
    requires |sep| > 0
    ensures !Contains(s, sep) ==> r == [s]
    ensures Contains(s, sep) ==> r == DropTrailingEmpty(SplitAll(s, sep))
  {
    if IndexOf(s, sep) < 0 then [s] else DropTrailingEmpty(SplitAll(s, sep))
  }

  lemma ContainsAtPrefix(s: string, p: string, t: string, j: int)
    requires ContainsAt(t, p, j) && StartsWith(s, t)
    ensures ContainsAt(s, p, j)
  {
    assert s[j..j + |p|] == t[j..j + |p|];
  }

  lemma ContainsAtSuffix(s: string, p: string, k: nat, j: int)
    requires k <= |s| && ContainsAt(s[k..], p, j)
    ensures ContainsAt(s, p, k + j)
  {
    assert s[k..][j..j + |p|] == s[k + j..k + j + |p|];
  }

  lemma JoinWithCons(a: string, r: seq<string>, sep: string)
    requires |r| >= 1
    ensures JoinWith([a] + r, sep) == a + sep + JoinWith(r, sep)
  {
    assert ([a] + r)[1..] == r;
  }

  /** Splitting and joining again gives back the text. */
  lemma {:induction false} SplitAllJoin(s: string, sep: string)
    requires |sep| > 0
    ensures JoinWith(SplitAll(s, sep), sep) == s
    decreases |s|
  {
    var i := IndexOf(s, sep);
    if i >= 0 {
      var rest := s[i + |sep|..];
      SplitAllJoin(rest, sep);
      JoinWithCons(s[..i], SplitAll(rest, sep), sep);
      assert s[i..i + |sep|] == sep;
      assert s == s[..i] + s[i..i + |sep|] + rest;
    }
  }

  /** No piece contains the separator. */
  lemma {:induction false} SplitAllPiecesFree(s: string, sep: string, k: nat)
    requires |sep| > 0 && k < |SplitAll(s, sep)|
    ensures !Contains(SplitAll(s, sep)[k], sep)
    decreases |s|
  {
    var i := IndexOf(s, sep);
    if i < 0 {
    } else if k == 0 {
      if Contains(s[..i], sep) {
        var j :| 0 <= j <= |s[..i]| - |sep| && ContainsAt(s[..i], sep, j);
        ContainsAtPrefix(s, sep, s[..i], j);
      }
    } else {
      var rest := s[i + |sep|..];
      assert SplitAll(s, sep)[k] == SplitAll(rest, sep)[k - 1];
      SplitAllPiecesFree(rest, sep, k - 1);
    }
  }

  lemma JavaSplitPiecesFree(s: string, sep: string, k: nat)
    requires |sep| > 0 && k < |JavaSplit(s, sep)|
    ensures !Contains(JavaSplit(s, sep)[k], sep)
  {
    if Contains(s, sep) { SplitAllPiecesFree(s, sep, k); }
  }

  // ---------------------------------------------------------------------------
  // Whitespace: three different notions in Java

  /** Characters `String.trim` removes: every code point up to the space character. */
  predicate IsTrimmed(c: char) { c <= ' ' }

  function TrimStart(s: string): (r: string)
    ensures |r| <= |s| && r == s[|s| - |r|..]
    ensures |r| > 0 ==> !IsTrimmed(r[0])
    ensures forall k | 0 <= k < |s| - |r| :: IsTrimmed(s[k])
  {
    if |s| > 0 && IsTrimmed(s[0]) then TrimStart(s[1..]) else s
  }

  function TrimEnd(s: string): (r: string)
    ensures |r| <= |s| && r == s[..|r|]
    ensures |r| > 0 ==> !IsTrimmed(r[|r| - 1])
    ensures forall k | |r| <= k < |s| :: IsTrimmed(s[k])
  {
    if |s| > 0 && IsTrimmed(s[|s| - 1]) then TrimEnd(s[..|s| - 1]) else s
  }

  /** Trimming keeps only characters of the string. */
  lemma TrimKeeps(s: string)
    ensures forall c | c in TrimEnd(TrimStart(s)) :: c in s
  {
    var t := TrimStart(s);
    var r := TrimEnd(t);
    assert forall k | 0 <= k < |r| :: r[k] == t[k] == s[|s| - |t| + k];
  }

  /** Java `String.trim`. */
  function JavaTrim(s: string): string { TrimEnd(TrimStart(s)) }

  /** `!s.trim().isEmpty()`, the "has content" test of several request builders. */
  predicate HasContent(s: string) { JavaTrim(s) != "" }

  /** Trimming leaves something exactly when some character is above the space character. */
  lemma HasContentIff(s: string)
    ensures HasContent(s) <==> exists k | 0 <= k < |s| :: !IsTrimmed(s[k])
  {
    var t := TrimStart(s);
    if exists k | 0 <= k < |s| :: !IsTrimmed(s[k]) {
      var k :| 0 <= k < |s| && !IsTrimmed(s[k]);
      assert |t| > 0;
      assert t[0] == s[|s| - |t|];
    }
    if HasContent(s) {
      var r := TrimEnd(t);
      assert r[0] == t[0] == s[|s| - |t|];
    }
  }

  /** Java `Character.isWhitespace`, the test behind `String.isBlank`. */
  predicate IsJavaWhitespace(c: char) {
    // space separators other than the three non-breaking ones
    c == ' ' || c == '\U{1680}' || ('\U{2000}' <= c <= '\U{2006}') || ('\U{2008}' <= c <= '\U{200A}')
    || c == '\U{205F}' || c == '\U{3000}'
    // line and paragraph separators
    || c == '\U{2028}' || c == '\U{2029}'
    // tab, line feed, vertical tab, form feed, carriage return and the four information separators
    || ('\t' <= c <= '\r') || ('\U{001C}' <= c <= '\U{001F}')
  }

  /** Java `String.isBlank`. */
  predicate IsBlank(s: string) { forall k | 0 <= k < |s| :: IsJavaWhitespace(s[k]) }

  /** The regular-expression class `\s` of `java.util.regex` (without the Unicode flag). */
  predicate IsRegexSpace(c: char) { c == ' ' || ('\t' <= c <= '\r') }

  // ---------------------------------------------------------------------------
  // Character classes and case

  predicate IsAsciiDigit(c: char) { '0' <= c <= '9' }

  predicate IsAsciiAlphanumeric(c: char) { IsAsciiDigit(c) || 'a' <= c <= 'z' || 'A' <= c <= 'Z' }

  function LowerChar(c: char): (d: char)
    ensures 'A' <= c <= 'Z' ==> d as int == c as int + 32
    ensures !('A' <= c <= 'Z') ==> d == c
  {
    if 'A' <= c <= 'Z' then (c as int + 32) as char else c
  }

  function UpperChar(c: char): (d: char)
    ensures 'a' <= c <= 'z' ==> d as int == c as int - 32
    ensures !('a' <= c <= 'z') ==> d == c
  {
    if 'a' <= c <= 'z' then (c as int - 32) as char else c
  }

  /** `toLowerCase` on the ASCII letters; every other character is kept. */
  function Lower(s: string): (r: string)
    ensures |r| == |s| && forall k | 0 <= k < |s| :: r[k] == LowerChar(s[k])
  {
    seq(|s|, k requires 0 <= k < |s| => LowerChar(s[k]))
  }

  /** `toUpperCase` on the ASCII letters; every other character is kept. */
  function Upper(s: string): (r: string)
    ensures |r| == |s| && forall k | 0 <= k < |s| :: r[k] == UpperChar(s[k])
  {
    seq(|s|, k requires 0 <= k < |s| => UpperChar(s[k]))
  }

  lemma LowerIdempotent(s: string)
    ensures Lower(Lower(s)) == Lower(s)
  {
  }

  lemma LowerAppend(a: string, b: string)
    ensures Lower(a + b) == Lower(a) + Lower(b)
  {
  }

  /** Lowering both sides keeps an occurrence. */
  lemma LowerContains(s: string, p: string)
    requires Contains(s, p)
    ensures Contains(Lower(s), Lower(p))
  {
    var i :| 0 <= i <= |s| - |p| && ContainsAt(s, p, i);
    assert Lower(s)[i..i + |p|] == Lower(p);
    assert ContainsAt(Lower(s), Lower(p), i);
  }

  // ---------------------------------------------------------------------------
  // Character replacement, as in `replace(",", "")` and `replace(" ", "_")`

  function RemoveChar(s: string, c: char): (r: string)
    ensures c !in r
    ensures |r| <= |s|
    ensures forall d | d in r :: d in s
  {
    if |s| == 0 then "" else if s[0] == c then RemoveChar(s[1..], c) else [s[0]] + RemoveChar(s[1..], c)
  }

  /** Removing a character that does not occur changes nothing. */
  lemma {:induction false} RemoveAbsentChar(s: string, c: char)
    requires c !in s
    ensures RemoveChar(s, c) == s
  {
    if |s| > 0 {
      assert s[0] != c;
      assert c !in s[1..];
      RemoveAbsentChar(s[1..], c);
      assert s == [s[0]] + s[1..];
    }
  }

  /**
   * Removal works character by character: it distributes over
   * concatenation, and keeps a single character exactly when it is not `c`.
   */
  lemma {:induction false} RemoveCharAppend(a: string, b: string, c: char)
    ensures RemoveChar(a + b, c) == RemoveChar(a, c) + RemoveChar(b, c)
    ensures forall d :: RemoveChar([d], c) == if d == c then [] else [d]
  {
    forall d ensures RemoveChar([d], c) == if d == c then [] else [d] {
      assert [d][1..] == [];
    }
    if |a| > 0 {
      assert (a + b)[1..] == a[1..] + b;
      RemoveCharAppend(a[1..], b, c);
    } else {
      assert a + b == b;
    }
  }

  function ReplaceChar(s: string, c: char, d: char): (r: string)
    ensures |r| == |s|
    ensures forall k | 0 <= k < |s| :: r[k] == if s[k] == c then d else s[k]
  {
    seq(|s|, k requires 0 <= k < |s| => if s[k] == c then d else s[k])
  }

  /** The characters of `s` that satisfy the ASCII alphanumeric test, in order (`replaceAll("[^a-zA-Z0-9]", "")`). */
  function KeepAlphanumeric(s: string): (r: string)
    ensures forall k | 0 <= k < |r| :: IsAsciiAlphanumeric(r[k])
    ensures |r| <= |s|
    ensures (exists k | 0 <= k < |s| :: IsAsciiAlphanumeric(s[k])) <==> |r| > 0
  {
    if |s| == 0 then ""
    else if IsAsciiAlphanumeric(s[0]) then [s[0]] + KeepAlphanumeric(s[1..])
    else
      var r := KeepAlphanumeric(s[1..]);
      assert forall k | 1 <= k < |s| :: s[k] == s[1..][k - 1];
      r
  }

  // ---------------------------------------------------------------------------
  // Decimal rendering of integers (`String.valueOf`, string concatenation)

  function DigitChar(d: nat): (c: char)
    requires d < 10
    ensures IsAsciiDigit(c) && c as int - '0' as int == d
  {
    ('0' as int + d) as char
  }

  function NatToString(n: nat): (r: string)
    ensures |r| >= 1
    ensures forall k | 0 <= k < |r| :: IsAsciiDigit(r[k])
    ensures n >= 10 ==> |r| >= 2
    ensures r[|r| - 1] == DigitChar(n % 10)
  {
    if n < 10 then [DigitChar(n)] else NatToString(n / 10) + [DigitChar(n % 10)]
  }

  /** Different numbers render differently. */
  lemma {:induction false} NatToStringInjective(a: nat, b: nat)
    requires NatToString(a) == NatToString(b)
    ensures a == b
  {
    if a >= 10 && b >= 10 {
      var sa, sb := NatToString(a), NatToString(b);
      assert NatToString(a / 10) == sa[..|sa| - 1] == sb[..|sb| - 1] == NatToString(b / 10);
      NatToStringInjective(a / 10, b / 10);
    }
  }

  function IntToString(i: int): (r: string)
    ensures |r| >= 1
  {
    if i < 0 then "-" + NatToString(-i) else NatToString(i)
  }

  // ---------------------------------------------------------------------------
  // The regular expression `"KEY":"([^"]+)"` and its relative `"([^"]+)"`, used with `find()`

  /** The first index at or after `k` that holds a double quote, or `|s|`. */
  function QuoteFrom(s: string, k: nat): (j: nat)
    requires k <= |s|
    ensures k <= j <= |s|
    ensures j < |s| ==> s[j] == '"'
    ensures forall m | k <= m < j :: s[m] != '"'
    decreases |s| - k
  {
    if k == |s| || s[k] == '"' then k else QuoteFrom(s, k + 1)
  }

  /**
   * The pattern `p` followed by a non-empty run of non-quote characters and a
   * closing quote matches at `i` (the greedy run cannot stop anywhere else).
   */
  predicate QuotedMatchAt(s: string, p: string, i: int) {
    ContainsAt(s, p, i) && i + |p| < QuoteFrom(s, i + |p|) < |s|
  }

  function QuotedValueAt(s: string, p: string, i: int): (r: string)
    requires QuotedMatchAt(s, p, i)
    ensures |r| > 0 && '"' !in r
  {
    var j := QuoteFrom(s, i + |p|);
    var r := s[i + |p|..j];
    assert forall m | 0 <= m < |r| :: r[m] == s[i + |p| + m];
    r
  }

  function FindQuotedFrom(s: string, p: string, k: nat): Option<string>
    requires k <= |s|
    decreases |s| - k
  {
    if QuotedMatchAt(s, p, k) then Some(QuotedValueAt(s, p, k))
    else if k == |s| then None
    else FindQuotedFrom(s, p, k + 1)
  }

  /** The scan from `k` finds the leftmost match at or after `k`. */
  lemma FindQuotedFromLeftmost(s: string, p: string, k: nat)
    requires k <= |s|
    ensures var r := FindQuotedFrom(s, p, k);
      && (r.None? <==> forall i | k <= i :: !QuotedMatchAt(s, p, i))
      && (r.Some? ==> exists i | k <= i :: QuotedMatchAt(s, p, i) && r.value == QuotedValueAt(s, p, i)
                                          && forall m | k <= m < i :: !QuotedMatchAt(s, p, m))
  {
    var r := FindQuotedFrom(s, p, k);
    if r.None? {
      FindQuotedNone(s, p, k);
    } else {
      var i := FindQuotedSome(s, p, k);
    }
  }

  /** The scan from `k` finds nothing exactly when no match starts at or after `k`. */
  lemma {:induction false} FindQuotedNone(s: string, p: string, k: nat)
    requires k <= |s|
    ensures FindQuotedFrom(s, p, k).None? <==> forall i | k <= i :: !QuotedMatchAt(s, p, i)
    decreases |s| - k
  {
    if QuotedMatchAt(s, p, k) {
    } else if k == |s| {
      forall i | k <= i ensures !QuotedMatchAt(s, p, i) {
        NoQuotedMatchAtEnd(s, p, i);
      }
    } else {
      FindQuotedNone(s, p, k + 1);
    }
  }

  /** What the scan from `k` finds is the value at the leftmost match at or after `k`. */
  lemma {:induction false} FindQuotedSome(s: string, p: string, k: nat) returns (i: int)
    requires k <= |s| && FindQuotedFrom(s, p, k).Some?
    ensures k <= i && QuotedMatchAt(s, p, i) && FindQuotedFrom(s, p, k).value == QuotedValueAt(s, p, i)
    ensures forall m | k <= m < i :: !QuotedMatchAt(s, p, m)
    decreases |s| - k
  {
    if QuotedMatchAt(s, p, k) {
      i := k;
    } else {
      i := FindQuotedSome(s, p, k + 1);
    }
  }

  /** No match starts at or past the end. */
  lemma NoQuotedMatchAtEnd(s: string, p: string, i: int)
    requires i >= |s|
    ensures !QuotedMatchAt(s, p, i)
  {
  }

  /** The capture group of the first match of `p` + `([^"]+)"` in `s`, if any. */
  function FindQuoted(s: string, p: string): (r: Option<string>)
    ensures r.Some? ==> |r.value| > 0 && '"' !in r.value
  {
    FindQuotedFromLeftmost(s, p, 0);
    FindQuotedFrom(s, p, 0)
  }
}

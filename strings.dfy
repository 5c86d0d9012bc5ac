/** The JavaScript string operations the ingestion helpers rely on, stated over
    sequences of characters: `indexOf`, `includes`, `endsWith`, `slice`, `trim`,
    ASCII `toLowerCase` and the decimal rendering of a number in a template. */
module Strings {

  /** `pat` occurs in `s` starting at index `p`. */
  predicate OccursAt(s: string, pat: string, p: int)
  {
    0 <= p && p + |pat| <= |s| && s[p..p + |pat|] == pat
  }

  /** A string with no `/` in it. */
  predicate NoSlash(s: string)
  {
    forall k :: 0 <= k < |s| ==> s[k] != '/'
  }

  /** The characters of `pat` from index `k` on match `s` from `p + k` on,
      compared one at a time as `indexOf` does. */
  predicate MatchesFrom(s: string, pat: string, p: nat, k: nat)
    requires p + |pat| <= |s|
    decreases |pat| - k
  {
    k >= |pat| || (s[p + k] == pat[k] && MatchesFrom(s, pat, p, k + 1))
  }

  lemma {:induction false} MatchesFromSpec(s: string, pat: string, p: nat, k: nat)
    requires p + |pat| <= |s|
    ensures MatchesFrom(s, pat, p, k) <==> forall j :: k <= j < |pat| ==> s[p + j] == pat[j]
    decreases |pat| - k
  {
    if k < |pat| {
      MatchesFromSpec(s, pat, p, k + 1);
    }
  }

  lemma MatchesOccurs(s: string, pat: string, p: nat)
    requires p + |pat| <= |s|
    ensures MatchesFrom(s, pat, p, 0) <==> OccursAt(s, pat, p)
  {
    MatchesFromSpec(s, pat, p, 0);
    if MatchesFrom(s, pat, p, 0) {
      assert s[p..p + |pat|] == pat;
    }
  }

  /** `s.indexOf(pat, from)`: the first occurrence at or after `from`, or -1. */
  function IndexOfFrom(s: string, pat: string, from: nat): (r: int)
    decreases |s| - from
    ensures r == -1 || (from <= r && r + |pat| <= |s|)
  {
    if from + |pat| > |s| then -1
    else if MatchesFrom(s, pat, from, 0) then from
    else IndexOfFrom(s, pat, from + 1)
  }

  /** `indexOf` finds an occurrence, and none earlier; -1 means there is none
      from `from` on. */
  lemma {:induction false} IndexOfFromSpec(s: string, pat: string, from: nat)
    ensures IndexOfFrom(s, pat, from) != -1 ==> OccursAt(s, pat, IndexOfFrom(s, pat, from))
    ensures forall p :: from <= p && (IndexOfFrom(s, pat, from) == -1 || p < IndexOfFrom(s, pat, from))
                        ==> !OccursAt(s, pat, p)
    decreases |s| - from
  {
    if from + |pat| <= |s| {
      MatchesOccurs(s, pat, from);
      if !MatchesFrom(s, pat, from, 0) {
        IndexOfFromSpec(s, pat, from + 1);
      }
    }
  }

  /** `s.indexOf(pat)`: the first occurrence, or -1 when `pat` does not occur. */
  function IndexOf(s: string, pat: string): (r: int)
    ensures r == -1 || (0 <= r && r + |pat| <= |s|)
  {
    IndexOfFrom(s, pat, 0)
  }

  lemma IndexOfSpec(s: string, pat: string)
    ensures IndexOf(s, pat) == -1 <==> forall p :: !OccursAt(s, pat, p)
    ensures IndexOf(s, pat) != -1 ==> OccursAt(s, pat, IndexOf(s, pat))
    ensures forall p :: 0 <= p < IndexOf(s, pat) ==> !OccursAt(s, pat, p)
  {
    IndexOfFromSpec(s, pat, 0);
  }

  /** An occurrence with none before it is what `indexOf` returns. */
  lemma IndexOfIs(s: string, pat: string, q: nat)
    requires OccursAt(s, pat, q)
    requires forall p :: 0 <= p < q ==> !OccursAt(s, pat, p)
    ensures IndexOf(s, pat) == q
  {
    IndexOfSpec(s, pat);
  }

  /** `s.includes(pat)`, and the same test written as a RegExp without anchors. */
  predicate Contains(s: string, pat: string)
  {
    IndexOf(s, pat) != -1
  }

  lemma ContainsSpec(s: string, pat: string)
    ensures Contains(s, pat) <==> exists p :: OccursAt(s, pat, p)
  {
    IndexOfSpec(s, pat);
  }

  /** `s.endsWith(suffix)`, and the RegExp `/suffix$/` (no multiline flag). */
  predicate EndsWith(s: string, suffix: string)
  {
    |suffix| <= |s| && s[|s| - |suffix|..] == suffix
  }

  lemma {:induction false} OccursInPrefixOccurs(s: string, t: string, pat: string, p: int)
    requires OccursAt(s, pat, p)
    ensures OccursAt(s + t, pat, p)
  {
    assert (s + t)[p..p + |pat|] == s[p..p + |pat|];
  }

  lemma {:induction false} OccursShifted(s: string, t: string, pat: string, p: int)
    requires OccursAt(t, pat, p)
    ensures OccursAt(s + t, pat, |s| + p)
  {
    assert (s + t)[|s| + p..|s| + p + |pat|] == t[p..p + |pat|];
  }

  /** `pat` does not occur in `s` when two adjacent characters of `pat` never
      appear next to each other in `s`. */
  lemma {:induction false} AbsentPairNotContained(s: string, pat: string, i: nat)
    requires i + 1 < |pat|
    requires forall k :: 0 <= k < |s| - 1 ==> !(s[k] == pat[i] && s[k + 1] == pat[i + 1])
    ensures !Contains(s, pat)
  {
    forall p | 0 <= p && p + |pat| <= |s|
      ensures !OccursAt(s, pat, p)
    {
      var w := s[p..p + |pat|];
      assert w[i] == s[p + i] && w[i + 1] == s[p + i + 1];
      assert !(w[i] == pat[i] && w[i + 1] == pat[i + 1]);
    }
    ContainsSpec(s, pat);
  }

  /** `s.slice(from, to)` with both bounds already inside the string: empty when
      the end precedes the start. */
  function Slice(s: string, from: nat, to: nat): (r: string)
    requires from <= |s| && to <= |s|
    ensures from <= to ==> r == s[from..to]
    ensures to < from ==> r == ""
    ensures |r| == if from <= to then to - from else 0
  {
    if from <= to then s[from..to] else ""
  }

  /** `s.slice(0, n)`: the first `n` characters, or all of `s` when it is shorter. */
  function Truncate(s: string, n: nat): (r: string)
    ensures |r| == if |s| <= n then |s| else n
    ensures r == s[..|r|]
    ensures |s| <= n ==> r == s
  {
    if |s| <= n then s else s[..n]
  }

  /** The characters JavaScript's `trim` removes: WhiteSpace and LineTerminator
      of ECMA-262 (tab, vertical tab, form feed, space, no-break space, the byte
      order mark, the Zs space separators, line feed, carriage return, line and
      paragraph separators). */
  predicate IsWhitespace(c: char)
  {
    c == '\t' || c == '\n' || c == '\U{B}' || c == '\U{C}' || c == '\r' || c == ' '
    || c == '\U{A0}' || c == '\U{1680}' || ('\U{2000}' <= c <= '\U{200A}')
    || c == '\U{2028}' || c == '\U{2029}' || c == '\U{202F}' || c == '\U{205F}'
    || c == '\U{3000}' || c == '\U{FEFF}'
  }

  predicate AllWhitespace(s: string)
  {
    forall k :: 0 <= k < |s| ==> IsWhitespace(s[k])
  }

  /** The index of the first non-whitespace character at or after `k`, or `|s|`. */
  function LeadingEnd(s: string, k: nat): (r: nat)
    requires k <= |s|
    ensures k <= r <= |s|
    decreases |s| - k
  {
    if k < |s| && IsWhitespace(s[k]) then LeadingEnd(s, k + 1) else k
  }

  /** One past the last non-whitespace character before `k`, or 0. */
  function TrailingStart(s: string, k: nat): (r: nat)
    requires k <= |s|
    ensures r <= k
  {
    if k > 0 && IsWhitespace(s[k - 1]) then TrailingStart(s, k - 1) else k
  }

  /** `LeadingEnd` skips whitespace and stops at the first other character. */
  lemma {:induction false} LeadingEndSpec(s: string, k: nat)
    requires k <= |s|
    ensures forall j :: k <= j < LeadingEnd(s, k) ==> IsWhitespace(s[j])
    ensures LeadingEnd(s, k) == |s| || !IsWhitespace(s[LeadingEnd(s, k)])
    decreases |s| - k
  {
    if k < |s| && IsWhitespace(s[k]) {
      LeadingEndSpec(s, k + 1);
    }
  }

  /** `TrailingStart` skips whitespace backwards and stops after the last other
      character. */
  lemma {:induction false} TrailingStartSpec(s: string, k: nat)
    requires k <= |s|
    ensures forall j :: TrailingStart(s, k) <= j < k ==> IsWhitespace(s[j])
    ensures TrailingStart(s, k) == 0 || !IsWhitespace(s[TrailingStart(s, k) - 1])
  {
    if k > 0 && IsWhitespace(s[k - 1]) {
      TrailingStartSpec(s, k - 1);
    }
  }

  /** Whitespace up to `m` followed by a non-whitespace character (or the end)
      makes `m` the place `LeadingEnd` stops. */
  lemma {:induction false} LeadingEndAt(s: string, k: nat, m: nat)
    requires k <= m <= |s|
    requires forall j :: k <= j < m ==> IsWhitespace(s[j])
    requires m == |s| || !IsWhitespace(s[m])
    ensures LeadingEnd(s, k) == m
    decreases m - k
  {
    if k < m {
      LeadingEndAt(s, k + 1, m);
    }
  }

  /** The mirror image of `LeadingEndAt`. */
  lemma {:induction false} TrailingStartAt(s: string, k: nat, m: nat)
    requires m <= k <= |s|
    requires forall j :: m <= j < k ==> IsWhitespace(s[j])
    requires m == 0 || !IsWhitespace(s[m - 1])
    ensures TrailingStart(s, k) == m
  {
    if m < k {
      TrailingStartAt(s, k - 1, m);
    }
  }

  /** `s.trim()`: the text between the leading and the trailing whitespace. */
  function Trim(s: string): (r: string)
    ensures |r| <= |s|
  {
    var a := LeadingEnd(s, 0);
    var b := TrailingStart(s, |s|);
    if a < b then s[a..b] else ""
  }

  /** `trim` gives the empty string exactly for all-whitespace input, and
      otherwise the piece of the input between leading and trailing
      whitespace, which neither starts nor ends with whitespace. */
  lemma TrimSpec(s: string)
    ensures Trim(s) == "" <==> AllWhitespace(s)
    ensures Trim(s) != "" ==> !IsWhitespace(Trim(s)[0]) && !IsWhitespace(Trim(s)[|Trim(s)| - 1])
    ensures LeadingEnd(s, 0) + |Trim(s)| <= |s|
    ensures Trim(s) == s[LeadingEnd(s, 0)..LeadingEnd(s, 0) + |Trim(s)|]
    ensures AllWhitespace(s[..LeadingEnd(s, 0)]) && AllWhitespace(s[LeadingEnd(s, 0) + |Trim(s)|..])
  {
    var a := LeadingEnd(s, 0);
    var b := TrailingStart(s, |s|);
    LeadingEndSpec(s, 0);
    TrailingStartSpec(s, |s|);
    if a < b {
      assert !IsWhitespace(s[a]) && !IsWhitespace(s[b - 1]);
      assert Trim(s)[0] == s[a];
    }
  }

  /** Trimming text with whitespace around a piece that neither starts nor
      ends with whitespace gives that piece. */
  lemma TrimPadded(pre: string, t: string, post: string)
    requires AllWhitespace(pre) && AllWhitespace(post)
    requires t != "" && !IsWhitespace(t[0]) && !IsWhitespace(t[|t| - 1])
    ensures Trim(pre + t + post) == t
  {
    var s := pre + t + post;
    assert s[|pre|] == t[0];
    LeadingEndAt(s, 0, |pre|);
    assert s[|pre| + |t| - 1] == t[|t| - 1];
    forall j | |pre| + |t| <= j < |s|
      ensures IsWhitespace(s[j])
    {
      assert s[j] == post[j - |pre| - |t|];
    }
    TrailingStartAt(s, |s|, |pre| + |t|);
    assert s[|pre|..|pre| + |t|] == t;
  }

  /** Trimming twice is trimming once. */
  lemma TrimIdempotent(s: string)
    ensures Trim(Trim(s)) == Trim(s)
  {
    TrimSpec(s);
    var r := Trim(s);
    if r != "" {
      TrimPadded("", r, "");
      assert "" + r + "" == r;
    }
  }

  /** ASCII upper case to lower case, every other character unchanged. */
  function LowerChar(c: char): (r: char)
    ensures 'A' <= c <= 'Z' ==> r as int == c as int + 32
    ensures !('A' <= c <= 'Z') ==> r == c
    ensures !('A' <= r <= 'Z')
  {
    if 'A' <= c <= 'Z' then (c as int + 32) as char else c
  }

  /** `s.toLowerCase()` restricted to the ASCII letters. */
  function Lower(s: string): (r: string)
    ensures |r| == |s|
    ensures forall k :: 0 <= k < |s| ==> r[k] == LowerChar(s[k])
  {
    seq(|s|, k requires 0 <= k < |s| => LowerChar(s[k]))
  }

  /** Lowering twice is lowering once. */
  lemma LowerIdempotent(s: string)
    ensures Lower(Lower(s)) == Lower(s)
  {
  }

  function DigitChar(d: nat): (c: char)
    requires d < 10
    ensures '0' <= c <= '9' && c as int - '0' as int == d
  {
    ('0' as int + d) as char
  }

  predicate IsDigit(c: char)
  {
    '0' <= c <= '9'
  }

  predicate AllDigits(s: string)
  {
    forall k :: 0 <= k < |s| ==> IsDigit(s[k])
  }

  /** The value of a string of decimal digits (0 for the empty string). */
  function DigitsValue(s: string): (v: nat)
    requires forall k :: 0 <= k < |s| ==> IsDigit(s[k])
  {
    if s == [] then 0
    else
      assert IsDigit(s[|s| - 1]);
      DigitsValue(s[..|s| - 1]) * 10 + (s[|s| - 1] as int - '0' as int)
  }

  /** `${n}` for a non-negative integer: decimal digits, no sign, no leading zero. */
  function NatToString(n: nat): (r: string)
    ensures |r| >= 1
    ensures forall k :: 0 <= k < |r| ==> IsDigit(r[k])
    ensures |r| > 1 ==> r[0] != '0'
  {
    if n < 10 then [DigitChar(n)] else NatToString(n / 10) + [DigitChar(n % 10)]
  }

  /** Reading the digits back gives the number. */
  lemma {:induction false} NatToStringRoundTrip(n: nat)
    ensures DigitsValue(NatToString(n)) == n
  {
    if n >= 10 {
      var s := NatToString(n);
      assert s[..|s| - 1] == NatToString(n / 10);
      NatToStringRoundTrip(n / 10);
    }
  }

  /** Distinct numbers render as distinct strings. */
  lemma NatToStringInjective(m: nat, n: nat)
    requires NatToString(m) == NatToString(n)
    ensures m == n
  {
    NatToStringRoundTrip(m);
    NatToStringRoundTrip(n);
  }
}

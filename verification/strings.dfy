/** The parts of Go's `strings`, `fmt` and RE2 character classes that the
    content rewriter relies on, over `string` = `seq<char>` (one char per rune). */
module Strings {

  /** `p` occurs in `s` starting at index `i`. */
  predicate OccursAt(s: string, p: string, i: nat) {
    i + |p| <= |s| && s[i..i + |p|] == p
  }

  /** `strings.Contains(s, p)`. */
  predicate Contains(s: string, p: string) {
    exists i: nat :: i <= |s| && OccursAt(s, p, i)
  }

  /** `i` is the leftmost occurrence of `p` in `s`. */
  predicate FirstOccurrence(s: string, p: string, i: nat) {
    OccursAt(s, p, i) && forall k: nat :: k < i ==> !OccursAt(s, p, k)
  }

  lemma OccursAtShift(s: string, p: string, k: nat)
    requires |s| > 0
    ensures OccursAt(s, p, k + 1) <==> OccursAt(s[1..], p, k)
  {
    if k + 1 + |p| <= |s| {
      assert s[k + 1..k + 1 + |p|] == s[1..][k..k + |p|];
    }
  }

  /** `strings.Index(s, p)`: the leftmost occurrence of `p`, or -1. */
  function IndexOf(s: string, p: string): (r: int)
    ensures r == -1 || (0 <= r && FirstOccurrence(s, p, r))
    ensures r == -1 <==> !Contains(s, p)
    decreases |s|
  {
    if |s| < |p| then
      assert forall i: nat :: !OccursAt(s, p, i);
      -1
    else if OccursAt(s, p, 0) then
      assert OccursAt(s, p, 0);
      0
    else
      var r := IndexOf(s[1..], p);
      forall k: nat ensures OccursAt(s, p, k + 1) <==> OccursAt(s[1..], p, k) {
        OccursAtShift(s, p, k);
      }
      assert !OccursAt(s, p, 0);
      if r == -1 then
        assert forall i: nat :: !OccursAt(s, p, i) by {
          forall i: nat ensures !OccursAt(s, p, i) {
            if i > 0 {
              assert !OccursAt(s[1..], p, i - 1);
            }
          }
        }
        -1
      else
        assert OccursAt(s[1..], p, r);
        forall k: nat | k < r + 1 ensures !OccursAt(s, p, k) {
          if k > 0 {
            assert !OccursAt(s[1..], p, k - 1);
          }
        }
        r + 1
  }

  /** `strings.Replace(s, pat, rep, -1)`: the input is scanned left to right;
      an occurrence of `pat` is replaced by `rep` and the scan resumes after
      it, so replaced occurrences never overlap. */
  function ReplaceAll(s: string, pat: string, rep: string): (r: string)
    requires |pat| > 0
    decreases |s|
  {
    if |s| < |pat| then s
    else if OccursAt(s, pat, 0) then rep + ReplaceAll(s[|pat|..], pat, rep)
    else [s[0]] + ReplaceAll(s[1..], pat, rep)
  }

  /** Without an occurrence there is nothing to replace. */
  lemma {:induction false} ReplaceAllNoMatch(s: string, pat: string, rep: string)
    requires |pat| > 0
    ensures !Contains(s, pat) ==> ReplaceAll(s, pat, rep) == s
    decreases |s|
  {
    if !Contains(s, pat) && |s| >= |pat| {
      assert !OccursAt(s, pat, 0);
      NoMatchTail(s, pat);
      ReplaceAllNoMatch(s[1..], pat, rep);
    }
  }

  /** The output of a replacement starts with the input's first character or
      with the replacement text. */
  lemma ReplaceAllFirstChar(s: string, pat: string, rep: string)
    requires |pat| > 0 && |rep| > 0 && |s| > 0
    ensures var r := ReplaceAll(s, pat, rep); |r| > 0 && (r[0] == s[0] || r[0] == rep[0])
  {
  }

  /** A pattern absent from `s` is absent from its tail. */
  lemma NoMatchTail(s: string, pat: string)
    requires |s| > 0
    ensures !Contains(s, pat) ==> !Contains(s[1..], pat) && s == [s[0]] + s[1..]
  {
    if !Contains(s, pat) {
      forall k: nat | k <= |s[1..]| ensures !OccursAt(s[1..], pat, k) {
        OccursAtShift(s, pat, k);
      }
    }
  }

  /** The leftmost occurrence is unique, so `IndexOf` finds exactly it. */
  lemma IndexOfFirst(s: string, p: string, i: nat)
    requires FirstOccurrence(s, p, i)
    ensures IndexOf(s, p) == i
  {
    var j := IndexOf(s, p);
    assert i <= |s| && OccursAt(s, p, i);
    assert FirstOccurrence(s, p, j);
  }

  /** A leftmost occurrence after the first character is the leftmost one of
      the tail. */
  lemma FirstOccurrenceShift(s: string, pat: string, i: nat)
    requires i > 0 && FirstOccurrence(s, pat, i)
    ensures |s| >= |pat| && !OccursAt(s, pat, 0)
    ensures FirstOccurrence(s[1..], pat, i - 1)
  {
    OccursAtShift(s, pat, i - 1);
    forall k: nat | k < i - 1 ensures !OccursAt(s[1..], pat, k) {
      OccursAtShift(s, pat, k);
    }
  }

  /** One step of the scan where the pattern does not start. */
  lemma ReplaceAllSkip(s: string, pat: string, rep: string)
    requires |pat| > 0 && |s| >= |pat| && !OccursAt(s, pat, 0)
    ensures ReplaceAll(s, pat, rep) == [s[0]] + ReplaceAll(s[1..], pat, rep)
  {
  }

  /** One step of the scan where the pattern starts. */
  lemma ReplaceAllHit(s: string, pat: string, rep: string)
    requires |pat| > 0 && OccursAt(s, pat, 0)
    ensures ReplaceAll(s, pat, rep) == rep + ReplaceAll(s[|pat|..], pat, rep)
  {
  }

  /** The first occurrence is replaced and the scan resumes right after it. */
  lemma {:induction false} ReplaceAllAtFirst(s: string, pat: string, rep: string, i: nat)
    requires |pat| > 0 && FirstOccurrence(s, pat, i)
    ensures ReplaceAll(s, pat, rep) == s[..i] + rep + ReplaceAll(s[i + |pat|..], pat, rep)
    decreases i, 1
  {
    if i == 0 {
      ReplaceAllHit(s, pat, rep);
      assert s[..0] == [];
    } else {
      FirstOccurrenceShift(s, pat, i);
      ReplaceAllSkip(s, pat, rep);
      ReplaceAllAtFirstTail(s, pat, rep, i);
      ConsSlice(s, i, rep, ReplaceAll(s[i + |pat|..], pat, rep));
    }
  }

  lemma {:induction false} ReplaceAllAtFirstTail(s: string, pat: string, rep: string, i: nat)
    requires |pat| > 0 && i > 0 && FirstOccurrence(s, pat, i)
    ensures ReplaceAll(s[1..], pat, rep) == s[1..i] + rep + ReplaceAll(s[i + |pat|..], pat, rep)
    decreases i, 0
  {
    FirstOccurrenceShift(s, pat, i);
    var t := s[1..];
    ReplaceAllAtFirst(t, pat, rep, i - 1);
    SliceOfTail(s, i, |pat|);
    assert ReplaceAll(t[i - 1 + |pat|..], pat, rep) == ReplaceAll(s[i + |pat|..], pat, rep);
    Regroup(ReplaceAll(t, pat, rep), t[..i - 1], s[1..i], rep,
            ReplaceAll(t[i - 1 + |pat|..], pat, rep), ReplaceAll(s[i + |pat|..], pat, rep));
  }

  lemma Regroup(x: string, a: string, a': string, b: string, c: string, c': string)
    requires x == a + b + c && a == a' && c == c'
    ensures x == a' + b + c'
  {
  }

  lemma SliceOfTail(s: string, i: nat, m: nat)
    requires 0 < i && i + m <= |s|
    ensures s[1..][..i - 1] == s[1..i] && s[1..][i - 1 + m..] == s[i + m..]
  {
  }

  lemma ConsSlice(s: string, i: nat, b: string, c: string)
    requires 0 < i <= |s|
    ensures [s[0]] + (s[1..i] + b + c) == s[..i] + b + c
  {
    assert s[..i] == [s[0]] + s[1..i];
  }

  /** A pattern one of whose characters is missing from `s` does not occur in it. */
  lemma NotContainsChar(s: string, p: string, j: nat)
    requires j < |p| && p[j] !in s
    ensures !Contains(s, p)
  {
    forall k: nat | k <= |s| ensures !OccursAt(s, p, k) {
      if k + |p| <= |s| {
        assert s[k..k + |p|][j] == s[k + j];
      }
    }
  }

  /** The pattern cannot start inside `a` when its first character is not in `a`. */
  lemma FirstCharAbsent(a: string, pat: string, b: string)
    requires |pat| > 0 && pat[0] !in a
    ensures forall k: nat :: k < |a| ==> !OccursAt(a + pat + b, pat, k)
  {
    var s := a + pat + b;
    forall k: nat | k < |a| ensures !OccursAt(s, pat, k) {
      assert s[k] == a[k];
      if k + |pat| <= |s| {
        assert s[k..k + |pat|][0] == s[k];
      }
    }
  }

  /** The pattern cannot start inside `a` when its last character is neither
      in `a` nor earlier in the pattern. */
  lemma LastCharAbsent(a: string, pat: string, b: string)
    requires |pat| > 0 && pat[|pat| - 1] !in a + pat[..|pat| - 1]
    ensures forall k: nat :: k < |a| ==> !OccursAt(a + pat + b, pat, k)
  {
    var s := a + pat + b;
    var front := a + pat[..|pat| - 1];
    forall k: nat | k < |a| ensures !OccursAt(s, pat, k) {
      var j := k + |pat| - 1;
      assert s[j] == front[j];
      assert s[k..k + |pat|][|pat| - 1] == s[j];
    }
  }

  /** One occurrence with nothing to replace around it. */
  lemma ReplaceAllSplit(a: string, pat: string, rep: string, b: string)
    requires |pat| > 0
    requires forall k: nat :: k < |a| ==> !OccursAt(a + pat + b, pat, k)
    requires !Contains(b, pat)
    ensures ReplaceAll(a + pat + b, pat, rep) == a + rep + b
  {
    var s := a + pat + b;
    assert s[|a|..|a| + |pat|] == pat;
    assert FirstOccurrence(s, pat, |a|);
    ReplaceAllAtFirst(s, pat, rep, |a|);
    assert s[..|a|] == a;
    assert s[|a| + |pat|..] == b;
    ReplaceAllNoMatch(b, pat, rep);
  }

  /** A run of `c` longer than the only run in `a + d + b` does not occur. */
  lemma NoLongerRun(a: string, d: string, b: string, p: string, c: char)
    requires c !in a && c !in b
    requires forall i :: 0 <= i < |d| ==> d[i] == c
    requires |p| > |d| && forall i :: 0 <= i < |p| ==> p[i] == c
    ensures !Contains(a + d + b, p)
  {
    var s := a + d + b;
    forall k: nat | k <= |s| ensures !OccursAt(s, p, k) {
      if k + |p| <= |s| {
        if k < |a| {
          assert s[k] == a[k];
          assert s[k..k + |p|][0] == s[k];
        } else {
          var j := k + |p| - 1;
          assert j >= |a| + |d|;
          assert s[j] == b[j - |a| - |d|];
          assert s[k..k + |p|][|p| - 1] == s[j];
        }
      }
    }
  }

  /** `strings.Replace(s, pat, rep, 1)`: only the leftmost occurrence is replaced. */
  function ReplaceFirst(s: string, pat: string, rep: string): (r: string)
    requires |pat| > 0
    ensures !Contains(s, pat) ==> r == s
    ensures forall i: nat :: FirstOccurrence(s, pat, i) ==>
              r == s[..i] + rep + s[i + |pat|..]
  {
    var i := IndexOf(s, pat);
    if i < 0 then s
    else
      assert forall j: nat :: FirstOccurrence(s, pat, j) ==> j == i;
      s[..i] + rep + s[i + |pat|..]
  }

  /** Every character of a replacement's output comes from the input or from
      the replacement text. */
  lemma {:induction false} ReplaceAllChars(s: string, pat: string, rep: string, c: char)
    requires |pat| > 0
    requires c !in s && c !in rep
    ensures c !in ReplaceAll(s, pat, rep)
    decreases |s|
  {
    if |s| >= |pat| {
      if OccursAt(s, pat, 0) {
        ReplaceAllChars(s[|pat|..], pat, rep, c);
      } else {
        ReplaceAllChars(s[1..], pat, rep, c);
      }
    }
  }

  lemma ReplaceFirstChars(s: string, pat: string, rep: string, c: char)
    requires |pat| > 0
    requires c !in s && c !in rep
    ensures c !in ReplaceFirst(s, pat, rep)
  {
    var i := IndexOf(s, pat);
    if i >= 0 {
      assert c !in s[..i] && c !in s[i + |pat|..];
    }
  }

  /** Replacing every occurrence of a one-character pattern by the empty string
      deletes exactly the copies of that character: none is left, and every
      other character keeps its number of occurrences. */
  lemma {:induction false} RemoveAllChar(s: string, c: char)
    ensures c !in ReplaceAll(s, [c], "")
    ensures multiset(ReplaceAll(s, [c], "")) == multiset(s)[c := 0]
    decreases |s|
  {
    if |s| > 0 {
      assert s[0..1] == [s[0]];
      assert s == [s[0]] + s[1..];
      RemoveAllChar(s[1..], c);
      var r' := ReplaceAll(s[1..], [c], "");
      if OccursAt(s, [c], 0) {
        assert ReplaceAll(s, [c], "") == "" + r';
        assert multiset(s) == multiset{c} + multiset(s[1..]);
      } else {
        assert s[0] != c;
        assert ReplaceAll(s, [c], "") == [s[0]] + r';
        assert multiset([s[0]] + r') == multiset{s[0]} + multiset(r');
        assert multiset(s) == multiset{s[0]} + multiset(s[1..]);
      }
    }
  }

  /** The strings of `ss` joined end to end. */
  function Concat(ss: seq<string>): string {
    if |ss| == 0 then "" else ss[0] + Concat(ss[1..])
  }

  lemma {:induction false} ConcatAppend(a: seq<string>, b: seq<string>)
    ensures Concat(a + b) == Concat(a) + Concat(b)
    decreases |a|
  {
    if |a| > 0 {
      assert (a + b)[1..] == a[1..] + b;
      ConcatAppend(a[1..], b);
    } else {
      assert a + b == b;
    }
  }

  // ---------------------------------------------------------------------------
  // Character classes

  /** The three whitespace notions the content rewriter uses. */
  datatype SpaceClass =
    | RegexSpace    // RE2 `\s`: [\t\n\f\r ]
    | UnicodeSpace  // unicode.IsSpace, used by strings.TrimSpace
    | TabSpaceLine  // the cutset "\t \n" given to strings.Trim

  predicate IsSpace(c: char, k: SpaceClass) {
    match k
    case RegexSpace =>
      c == '\t' || c == '\n' || c == '\U{0C}' || c == '\r' || c == ' '
    case UnicodeSpace =>
      || c == '\t' || c == '\n' || c == '\U{0B}' || c == '\U{0C}' || c == '\r' || c == ' '
      || c == '\U{85}' || c == '\U{A0}' || c == '\U{1680}'
      || ('\U{2000}' <= c <= '\U{200A}')
      || c == '\U{2028}' || c == '\U{2029}' || c == '\U{202F}' || c == '\U{205F}' || c == '\U{3000}'
    case TabSpaceLine =>
      c == '\t' || c == ' ' || c == '\n'
  }

  /** Every character of `s` is a space of class `k`. */
  predicate AllSpace(s: string, k: SpaceClass) {
    forall i :: 0 <= i < |s| ==> IsSpace(s[i], k)
  }

  lemma AllSpaceConcat(a: string, b: string, k: SpaceClass)
    ensures AllSpace(a + b, k) <==> AllSpace(a, k) && AllSpace(b, k)
  {
    if AllSpace(a, k) && AllSpace(b, k) {
      forall i | 0 <= i < |a + b| ensures IsSpace((a + b)[i], k) {
        if i >= |a| { assert (a + b)[i] == b[i - |a|]; }
      }
    }
    if AllSpace(a + b, k) {
      forall i | 0 <= i < |a| ensures IsSpace(a[i], k) {
        assert (a + b)[i] == a[i];
      }
      forall i | 0 <= i < |b| ensures IsSpace(b[i], k) {
        assert (a + b)[|a| + i] == b[i];
      }
    }
  }

  /** Drops the leading characters of class `k`. */
  function TrimLeft(s: string, k: SpaceClass): string
  {
    if |s| > 0 && IsSpace(s[0], k) then TrimLeft(s[1..], k) else s
  }

  /** Drops the trailing characters of class `k`. */
  function TrimRight(s: string, k: SpaceClass): string
  {
    if |s| > 0 && IsSpace(s[|s| - 1], k) then TrimRight(s[..|s| - 1], k) else s
  }

  /** `strings.TrimSpace(s)` for k = UnicodeSpace and `strings.Trim(s, "\t \n")`
      for k = TabSpaceLine. */
  function Trim(s: string, k: SpaceClass): string
  {
    TrimRight(TrimLeft(s, k), k)
  }

  /** Trimming yields the empty string exactly when every character is a space. */
  lemma {:induction false} TrimEmptyIffAllSpace(s: string, k: SpaceClass)
    ensures Trim(s, k) == "" <==> AllSpace(s, k)
    decreases |s|
  {
    if |s| > 0 && IsSpace(s[0], k) {
      TrimEmptyIffAllSpace(s[1..], k);
      assert s == [s[0]] + s[1..];
      AllSpaceConcat([s[0]], s[1..], k);
    } else if |s| > 0 {
      assert TrimLeft(s, k) == s;
      assert TrimRight(s, k) != "" by { TrimRightKeepsFirst(s, k); }
    }
  }

  lemma {:induction false} TrimRightKeepsFirst(s: string, k: SpaceClass)
    requires |s| > 0 && !IsSpace(s[0], k)
    ensures |TrimRight(s, k)| > 0
    decreases |s|
  {
    if IsSpace(s[|s| - 1], k) {
      assert |s| > 1;
      TrimRightKeepsFirst(s[..|s| - 1], k);
    }
  }

  /** `s` trims to the empty string under class `k`. */
  predicate Blank(s: string, k: SpaceClass) {
    Trim(s, k) == ""
  }

  /** The characters of `s` that are not spaces of class `k`, in order. */
  function Visible(s: string, k: SpaceClass): (r: string)
    ensures |r| <= |s|
  {
    if |s| == 0 then ""
    else (if IsSpace(s[0], k) then "" else [s[0]]) + Visible(s[1..], k)
  }

  lemma {:induction false} VisibleConcat(a: string, b: string, k: SpaceClass)
    ensures Visible(a + b, k) == Visible(a, k) + Visible(b, k)
    decreases |a|
  {
    if |a| > 0 {
      assert (a + b)[1..] == a[1..] + b;
      VisibleConcat(a[1..], b, k);
    } else {
      assert a + b == b;
    }
  }

  /** A string is blank exactly when nothing visible is left in it. */
  lemma {:induction false} BlankIffInvisible(s: string, k: SpaceClass)
    ensures Blank(s, k) <==> Visible(s, k) == ""
    decreases |s|
  {
    TrimEmptyIffAllSpace(s, k);
    if |s| > 0 {
      BlankIffInvisible(s[1..], k);
      TrimEmptyIffAllSpace(s[1..], k);
      assert s == [s[0]] + s[1..];
      AllSpaceConcat([s[0]], s[1..], k);
    }
  }

  // ---------------------------------------------------------------------------
  // Decimal formatting, as `fmt.Sprintf("%v", n)` prints a non-negative int

  predicate IsDigit(c: char) {
    '0' <= c <= '9'
  }

  predicate AllDigits(s: string) {
    forall i :: 0 <= i < |s| ==> IsDigit(s[i])
  }

  function DigitChar(d: nat): (c: char)
    requires d < 10
    ensures IsDigit(c)
  {
    (48 + d) as char
  }

  /** Decimal digits of `n` without leading zeros. */
  function NatToString(n: nat): (r: string)
    ensures |r| > 0 && AllDigits(r)
  {
    if n < 10 then [DigitChar(n)] else NatToString(n / 10) + [DigitChar(n % 10)]
  }

  /** Reads a run of decimal digits back as a number. */
  function ParseDigits(s: string): nat
    requires AllDigits(s)
  {
    if |s| == 0 then 0
    else ParseDigits(s[..|s| - 1]) * 10 + ((s[|s| - 1] as int) - 48)
  }

  /** Formatting then parsing is the identity, so formatting is injective. */
  lemma {:induction false} ParseNatToString(n: nat)
    ensures ParseDigits(NatToString(n)) == n
  {
    if n >= 10 {
      var s := NatToString(n);
      assert s[..|s| - 1] == NatToString(n / 10);
      ParseNatToString(n / 10);
    }
  }

  lemma NatToStringInjective(a: nat, b: nat)
    requires NatToString(a) == NatToString(b)
    ensures a == b
  {
    ParseNatToString(a);
    ParseNatToString(b);
  }
}

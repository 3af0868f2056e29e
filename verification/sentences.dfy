/** Sentence segmentation of one text node (kepub/content.go, addSpansToNode).

    The source finds sentences with the RE2 expression
    `((?ms).*?[\.\!\?\:]['"”’“…]?\s*)` and then fills the gaps between the
    matches so that no text is lost. The expression is replaced here by a
    deterministic scanner with RE2's leftmost-first reading: the lazy `.*?`
    stops at the first terminator, the optional closer is taken when present,
    and `\s*` takes the longest run of [\t\n\f\r ]. */
module Sentences {
  import opened Wrappers
  import opened Strings

  /** `[\.\!\?\:]` */
  predicate IsTerminator(c: char) {
    c == '.' || c == '!' || c == '?' || c == ':'
  }

  /** `['"”’“…]` */
  predicate IsCloser(c: char) {
    c == '\'' || c == '"' || c == '\U{201D}' || c == '\U{2019}' || c == '\U{201C}' || c == '\U{2026}'
  }

  /** A match `s[lo..hi]`, as the half-open index pair Go's FindAllStringIndex reports. */
  datatype Range = Range(lo: nat, hi: nat)

  // ---------------------------------------------------------------------------
  // What one regex match is

  /** `s[lo..hi]` is the leftmost-first match of the sentence expression that
      starts at `lo`, with its terminator at `j`: no terminator before `j`
      (lazy `.*?`), the closer taken exactly when one follows (greedy `?`), and
      a whitespace run that cannot be extended (greedy `\s*`). */
  predicate MatchAt(s: string, lo: nat, j: nat, hi: nat) {
    && lo <= j < hi <= |s|
    && (forall k :: lo <= k < j ==> !IsTerminator(s[k]))
    && IsTerminator(s[j])
    && var q := if j + 1 < |s| && IsCloser(s[j + 1]) then j + 2 else j + 1;
       && q <= hi
       && (forall k :: q <= k < hi ==> IsSpace(s[k], RegexSpace))
       && (hi == |s| || !IsSpace(s[hi], RegexSpace))
  }

  // ---------------------------------------------------------------------------
  // The scanner

  /** The first terminator at or after `i`. */
  function NextTerminator(s: string, i: nat): (r: Option<nat>)
    requires i <= |s|
    ensures r.None? ==> forall k :: i <= k < |s| ==> !IsTerminator(s[k])
    ensures r.Some? ==> i <= r.value < |s| && IsTerminator(s[r.value])
                        && forall k :: i <= k < r.value ==> !IsTerminator(s[k])
    decreases |s| - i
  {
    if i == |s| then None
    else if IsTerminator(s[i]) then Some(i)
    else NextTerminator(s, i + 1)
  }

  /** The end of the longest run of `\s` characters starting at `k`. */
  function SkipSpaces(s: string, k: nat): (e: nat)
    requires k <= |s|
    ensures k <= e <= |s|
    ensures forall m :: k <= m < e ==> IsSpace(s[m], RegexSpace)
    ensures e == |s| || !IsSpace(s[e], RegexSpace)
    decreases |s| - k
  {
    if k < |s| && IsSpace(s[k], RegexSpace) then SkipSpaces(s, k + 1) else k
  }

  /** The end of the match whose terminator sits at `j`. */
  function MatchEnd(s: string, j: nat): nat
    requires j < |s|
  {
    var q := if j + 1 < |s| && IsCloser(s[j + 1]) then j + 2 else j + 1;
    SkipSpaces(s, q)
  }

  /** `s[lo..hi]` is a match of the sentence expression starting at `lo`. */
  predicate IsMatch(s: string, lo: nat, hi: nat) {
    exists j :: lo <= j < hi && MatchAt(s, lo, j, hi)
  }

  /** `ms` are matches laid end to end, the first one starting at `start`. */
  predicate Chained(s: string, ms: seq<Range>, start: nat) {
    |ms| == 0 ||
    (ms[0].lo == start && IsMatch(s, ms[0].lo, ms[0].hi) && Chained(s, ms[1..], ms[0].hi))
  }

  /** Where a chain of ranges starting at `start` ends. */
  function ChainEnd(ms: seq<Range>, start: nat): nat {
    if |ms| == 0 then start else ChainEnd(ms[1..], ms[0].hi)
  }

  /** FindAllStringIndex of the sentence expression, from index `i` on. Each
      search resumes where the previous match ended, and a match can always
      start there when a terminator lies ahead, so the matches are chained and
      only the text after the last of them holds no terminator. */
  function MatchesFrom(s: string, i: nat): (ms: seq<Range>)
    requires i <= |s|
    ensures Chained(s, ms, i)
    ensures i <= ChainEnd(ms, i) <= |s|
    ensures forall k :: ChainEnd(ms, i) <= k < |s| ==> !IsTerminator(s[k])
    decreases |s| - i
  {
    match NextTerminator(s, i)
    case None => []
    case Some(j) =>
      var e := MatchEnd(s, j);
      assert MatchAt(s, i, j, e);
      var rest := MatchesFrom(s, e);
      assert ([Range(i, e)] + rest)[1..] == rest;
      [Range(i, e)] + rest
  }

  /** The matches of the whole text. */
  function Matches(s: string): seq<Range> {
    MatchesFrom(s, 0)
  }

  // ---------------------------------------------------------------------------
  // Gap filling (kepub/content.go:114-127)

  /** `ms` are non-empty, in order, do not overlap, start at or after `last`
      and end within the text. */
  predicate Ordered(ms: seq<Range>, last: nat, len: nat) {
    && last <= len
    && (|ms| == 0 || (last <= ms[0].lo < ms[0].hi <= len && Ordered(ms[1..], ms[0].hi, len)))
  }

  /** The gap-filling loop of the source, for any ordered list of matches:
      the text between the previous match and the next one (or the end) is
      kept as a fragment of its own. */
  function FillGaps(s: string, ms: seq<Range>, last: nat): (r: seq<string>)
    requires Ordered(ms, last, |s|)
    ensures Concat(r) == s[last..]
    ensures forall k :: 0 <= k < |r| ==> |r[k]| > 0
    decreases |ms|
  {
    if |ms| == 0 then
      if last != |s| then [s[last..]] else []
    else
      var m := ms[0];
      var gap := if last != m.lo then [s[last..m.lo]] else [];
      var rest := FillGaps(s, ms[1..], m.hi);
      GapStep(s, last, m.lo, m.hi, rest);
      gap + [s[m.lo..m.hi]] + rest
  }

  /** One step of the gap filling: the gap before a match, the match and the
      pieces after it cover the text from `last` on, all non-empty. */
  lemma GapStep(s: string, last: nat, lo: nat, hi: nat, rest: seq<string>)
    requires last <= lo < hi <= |s|
    requires Concat(rest) == s[hi..]
    requires forall k :: 0 <= k < |rest| ==> |rest[k]| > 0
    ensures var gap := if last != lo then [s[last..lo]] else [];
            var r := gap + [s[lo..hi]] + rest;
            Concat(r) == s[last..] && forall k :: 0 <= k < |r| ==> |r[k]| > 0
  {
    var gap := if last != lo then [s[last..lo]] else [];
    var r := gap + [s[lo..hi]] + rest;
    ConcatAppend(gap + [s[lo..hi]], rest);
    ConcatAppend(gap, [s[lo..hi]]);
    assert s[last..] == s[last..lo] + s[lo..hi] + s[hi..];
    forall k | 0 <= k < |r| ensures |r[k]| > 0 {
      if k >= |gap| + 1 {
        assert r[k] == rest[k - |gap| - 1];
      }
    }
  }

  /** The sentences of a text node: the matches with their gaps filled in. */
  function Fragments(s: string): seq<string>
  {
    var ms := Matches(s);
    ChainedIsOrdered(s, ms, 0);
    FillGaps(s, ms, 0)
  }

  lemma {:induction false} ChainedIsOrdered(s: string, ms: seq<Range>, start: nat)
    requires Chained(s, ms, start) && ChainEnd(ms, start) <= |s|
    ensures Ordered(ms, start, |s|)
    decreases |ms|
  {
    if |ms| > 0 {
      ChainEndAfterStart(s, ms[1..], ms[0].hi);
      ChainedIsOrdered(s, ms[1..], ms[0].hi);
    }
  }

  lemma {:induction false} ChainEndAfterStart(s: string, ms: seq<Range>, start: nat)
    requires Chained(s, ms, start)
    ensures start <= ChainEnd(ms, start)
    decreases |ms|
  {
    if |ms| > 0 {
      ChainEndAfterStart(s, ms[1..], ms[0].hi);
    }
  }

  lemma {:induction false} OrderedChainEnd(ms: seq<Range>, last: nat, len: nat)
    requires Ordered(ms, last, len)
    ensures last <= ChainEnd(ms, last) <= len
    decreases |ms|
  {
    if |ms| > 0 {
      OrderedChainEnd(ms[1..], ms[0].hi, len);
    }
  }

  // ---------------------------------------------------------------------------
  // Properties of the fragments

  /** Concatenating the fragments gives back the text exactly. */
  lemma FragmentsPartition(s: string)
    ensures Concat(Fragments(s)) == s
    ensures forall k :: 0 <= k < |Fragments(s)| ==> |Fragments(s)[k]| > 0
  {
  }

  /** The texts of the matches, in order. */
  function MatchTexts(s: string, ms: seq<Range>, last: nat): (r: seq<string>)
    requires Ordered(ms, last, |s|)
    ensures |r| == |ms|
    decreases |ms|
  {
    if |ms| == 0 then [] else [s[ms[0].lo..ms[0].hi]] + MatchTexts(s, ms[1..], ms[0].hi)
  }

  /** Because the matches are chained, gap filling adds at most one fragment:
      the text after the last match. */
  lemma {:induction false} FillChainedGaps(s: string, ms: seq<Range>, start: nat)
    requires Chained(s, ms, start) && Ordered(ms, start, |s|)
    ensures var end := ChainEnd(ms, start);
            end <= |s| &&
            FillGaps(s, ms, start) ==
              MatchTexts(s, ms, start) + (if end != |s| then [s[end..]] else [])
    decreases |ms|
  {
    OrderedChainEnd(ms, start, |s|);
    if |ms| > 0 {
      FillChainedGaps(s, ms[1..], ms[0].hi);
    }
  }

  /** Number of terminator characters in `f`. */
  function Terminators(f: string): nat {
    if |f| == 0 then 0 else (if IsTerminator(f[0]) then 1 else 0) + Terminators(f[1..])
  }

  lemma {:induction false} NoTerminators(f: string)
    requires forall k :: 0 <= k < |f| ==> !IsTerminator(f[k])
    ensures Terminators(f) == 0
    decreases |f|
  {
    if |f| > 0 { NoTerminators(f[1..]); }
  }

  lemma {:induction false} TerminatorsConcat(a: string, b: string)
    ensures Terminators(a + b) == Terminators(a) + Terminators(b)
    decreases |a|
  {
    if |a| > 0 {
      assert (a + b)[1..] == a[1..] + b;
      TerminatorsConcat(a[1..], b);
    } else {
      assert a + b == b;
    }
  }

  /** A match holds exactly one terminator: runs such as `?!` or `...` are
      therefore cut into one fragment per terminator. */
  lemma MatchHasOneTerminator(s: string, lo: nat, j: nat, hi: nat)
    requires MatchAt(s, lo, j, hi)
    ensures Terminators(s[lo..hi]) == 1
  {
    assert s[lo..hi] == s[lo..j] + [s[j]] + s[j + 1..hi];
    NoTerminators(s[lo..j]);
    assert forall k :: j + 1 <= k < hi ==> !IsTerminator(s[k]);
    NoTerminators(s[j + 1..hi]);
    TerminatorsConcat(s[lo..j] + [s[j]], s[j + 1..hi]);
    TerminatorsConcat(s[lo..j], [s[j]]);
  }

  lemma {:induction false} MatchTextsTerminators(s: string, ms: seq<Range>, start: nat)
    requires Chained(s, ms, start) && Ordered(ms, start, |s|)
    ensures forall k :: 0 <= k < |ms| ==> Terminators(MatchTexts(s, ms, start)[k]) == 1
    decreases |ms|
  {
    if |ms| > 0 {
      var j :| ms[0].lo <= j < ms[0].hi && MatchAt(s, ms[0].lo, j, ms[0].hi);
      MatchHasOneTerminator(s, ms[0].lo, j, ms[0].hi);
      MatchTextsTerminators(s, ms[1..], ms[0].hi);
      var rest := MatchTexts(s, ms[1..], ms[0].hi);
      var mt := MatchTexts(s, ms, start);
      assert mt == [s[ms[0].lo..ms[0].hi]] + rest;
      forall k | 0 <= k < |mt| ensures Terminators(mt[k]) == 1 {
        if k > 0 {
          assert mt[k] == rest[k - 1];
          assert Terminators(rest[k - 1]) == 1;
        } else {
          assert mt[0] == s[ms[0].lo..ms[0].hi];
        }
      }
    }
  }

  /** Every fragment but the last holds exactly one terminator; the last holds
      one or none. */
  lemma FragmentTerminators(s: string)
    ensures var fs := Fragments(s);
            forall k :: 0 <= k < |fs| - 1 ==> Terminators(fs[k]) == 1
    ensures var fs := Fragments(s);
            |fs| > 0 ==> Terminators(fs[|fs| - 1]) <= 1
  {
    var ms := Matches(s);
    var end := ChainEnd(ms, 0);
    ChainedIsOrdered(s, ms, 0);
    FillChainedGaps(s, ms, 0);
    MatchTextsTerminators(s, ms, 0);
    var tail: seq<string> := if end != |s| then [s[end..]] else [];
    if end != |s| {
      NoTerminators(s[end..]);
    }
    TerminatorsOfParts(MatchTexts(s, ms, 0), tail);
  }

  /** Pieces with one terminator each, then at most one piece with none. */
  lemma TerminatorsOfParts(mt: seq<string>, tail: seq<string>)
    requires forall k :: 0 <= k < |mt| ==> Terminators(mt[k]) == 1
    requires |tail| <= 1 && (|tail| == 1 ==> Terminators(tail[0]) == 0)
    ensures var fs := mt + tail;
            && (forall k :: 0 <= k < |fs| - 1 ==> Terminators(fs[k]) == 1)
            && (|fs| > 0 ==> Terminators(fs[|fs| - 1]) <= 1)
  {
    var fs := mt + tail;
    forall k | 0 <= k < |fs| - 1 ensures Terminators(fs[k]) == 1 {
      assert fs[k] == mt[k];
    }
    if |fs| > 0 {
      if |tail| == 1 {
        assert fs[|fs| - 1] == tail[0];
      } else {
        assert fs[|fs| - 1] == mt[|mt| - 1];
      }
    }
  }
}

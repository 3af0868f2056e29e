/** Punctuation smartening on the serialised document
    (kepub/content.go: smartenPunctuation). */
module Punctuation {
  import opened Strings

  const EnDash: string := " &#x2013; "
  const EmDash: string := " &#x2014; "

  /** What the em-dash rewrite makes of a comment's `<!--` and `-->`. */
  const BrokenOpen: string := "<! &#x2014; "
  const BrokenClose: string := " &#x2014; >"

  /** An empty comment. */
  const EmptyComment: string := "<!---->"

  /** The two dash rewrites: runs of three first, then pairs. */
  function Dashes(h: string): (r: string)
    ensures !Contains(r, "--")
  {
    ReplacePairsGone(ReplaceAll(h, "---", EnDash), EmDash);
    ReplaceAll(ReplaceAll(h, "---", EnDash), "--", EmDash)
  }

  /** The comment repair: only the two damaged delimiters are rewritten. */
  function FixComments(h: string): (r: string)
    ensures !Contains(h, BrokenOpen) && !Contains(h, BrokenClose) ==> r == h
  {
    ReplaceAllNoMatch(h, BrokenOpen, "<!-- ");
    ReplaceAllNoMatch(h, BrokenClose, " -->");
    ReplaceAll(ReplaceAll(h, BrokenOpen, "<!-- "), BrokenClose, " -->")
  }

  /** smartenPunctuation: text without hyphens and without damaged comment
      delimiters passes through unchanged. */
  function SmartenPunctuation(h: string): (r: string)
    ensures '-' !in h && !Contains(h, BrokenOpen) && !Contains(h, BrokenClose) ==> r == h
  {
    DashesWithoutHyphens(h);
    FixComments(Dashes(h))
  }

  /** Text without hyphens is untouched by the dash rewrites. */
  lemma DashesWithoutHyphens(h: string)
    ensures '-' !in h ==> Dashes(h) == h
  {
    if '-' !in h {
      NotContainsChar(h, "---", 0);
      NotContainsChar(h, "--", 0);
      ReplaceAllNoMatch(h, "---", EnDash);
      ReplaceAllNoMatch(h, "--", EmDash);
    }
  }

  // ---------------------------------------------------------------------------
  // No pair of hyphens survives

  /** Joining two strings without "--" makes one only across the seam. */
  lemma NoPairConcat(a: string, b: string)
    requires !Contains(a, "--") && !Contains(b, "--")
    requires |a| == 0 || |b| == 0 || a[|a| - 1] != '-' || b[0] != '-'
    ensures !Contains(a + b, "--")
  {
    var s := a + b;
    forall k: nat | k <= |s| ensures !OccursAt(s, "--", k) {
      if k + 2 <= |s| {
        if k + 2 <= |a| {
          assert s[k..k + 2] == a[k..k + 2];
          assert !OccursAt(a, "--", k);
        } else if k >= |a| {
          assert s[k..k + 2] == b[k - |a|..k - |a| + 2];
          assert !OccursAt(b, "--", k - |a|);
        } else {
          assert k == |a| - 1;
          assert s[k..k + 2] == [a[|a| - 1], b[0]];
        }
      }
    }
  }

  /** Replacing every "--" by a text without hyphens leaves no "--": the
      scan resumes after each replaced pair, and the replacement cannot form
      a new pair with its neighbours. */
  lemma {:induction false} ReplacePairsGone(s: string, rep: string)
    requires |rep| > 0 && '-' !in rep
    ensures !Contains(ReplaceAll(s, "--", rep), "--")
    decreases |s|
  {
    NotContainsChar(rep, "--", 0);
    if |s| < 2 {
      assert !Contains(s, "--");
      ReplaceAllNoMatch(s, "--", rep);
    } else if OccursAt(s, "--", 0) {
      ReplaceAllHit(s, "--", rep);
      ReplacePairsGone(s[2..], rep);
      NoPairConcat(rep, ReplaceAll(s[2..], "--", rep));
    } else {
      var u := s[1..];
      ReplaceAllSkip(s, "--", rep);
      ReplacePairsGone(u, rep);
      ReplaceAllFirstChar(u, "--", rep);
      assert s[0..2] == [s[0], u[0]];
      assert !Contains([s[0]], "--");
      NoPairConcat([s[0]], ReplaceAll(u, "--", rep));
    }
  }

  // ---------------------------------------------------------------------------
  // How dashes and comments come out

  /** Three hyphens become an en dash. */
  lemma EnDashFirst(a: string, b: string)
    requires '-' !in a && '-' !in b
    ensures Dashes(a + "---" + b) == a + EnDash + b
  {
    FirstCharAbsent(a, "---", b);
    NotContainsChar(b, "---", 0);
    ReplaceAllSplit(a, "---", EnDash, b);
    assert '-' !in EnDash;
    NotContainsChar(a + EnDash + b, "--", 0);
    ReplaceAllNoMatch(a + EnDash + b, "--", EmDash);
  }

  /** Two hyphens become an em dash. */
  lemma EmDashAfter(a: string, b: string)
    requires '-' !in a && '-' !in b
    ensures Dashes(a + "--" + b) == a + EmDash + b
  {
    NoLongerRun(a, "--", b, "---", '-');
    ReplaceAllNoMatch(a + "--" + b, "---", EnDash);
    FirstCharAbsent(a, "--", b);
    NotContainsChar(b, "--", 0);
    ReplaceAllSplit(a, "--", EmDash, b);
  }

  /** Four hyphens: the leftmost three become an en dash and a lone hyphen
      is left over. */
  lemma FourHyphens()
    ensures Dashes("----") == EnDash + "-"
  {
    assert ReplaceAll("----", "---", EnDash) == EnDash + "-" by {
      assert "----" == "" + "---" + "-";
      assert !Contains("-", "---");
      ReplaceAllSplit("", "---", EnDash, "-");
      assert "" + EnDash + "-" == EnDash + "-";
    }
    assert ReplaceAll(EnDash + "-", "--", EmDash) == EnDash + "-" by {
      NoLongerRun(EnDash, "-", "", "--", '-');
      assert EnDash + "-" + "" == EnDash + "-";
      ReplaceAllNoMatch(EnDash + "-", "--", EmDash);
    }
  }

  /** No "---" in a comment whose text has no "--" and neither starts nor
      ends with a hyphen. */
  lemma CommentNoTriple(b: string)
    requires |b| > 0 && !Contains(b, "--") && b[0] != '-' && b[|b| - 1] != '-'
    ensures !Contains("<!--" + b + "-->", "---")
  {
    var s := "<!--" + b + "-->";
    assert forall i :: 0 <= i < |b| ==> s[4 + i] == b[i];
    assert s[0] == '<' && s[1] == '!' && s[|b| + 6] == '>';
    forall k: nat | k <= |s| ensures !OccursAt(s, "---", k) {
      if k + 3 <= |s| {
        var w := s[k..k + 3];
        assert w[0] == s[k] && w[1] == s[k + 1] && w[2] == s[k + 2];
        if k <= 1 {
          assert s[k] != '-';
        } else if k <= 3 {
          assert s[4] == b[0];
        } else if k + 1 < 4 + |b| {
          assert s[k..k + 2] == b[k - 4..k - 2];
          assert !OccursAt(b, "--", k - 4);
        } else if k == |b| + 3 {
          assert s[k] == b[|b| - 1];
        } else {
          assert s[k + 2] == '>';
        }
      }
    }
  }

  /** The pair of hyphens opening a comment is its first one. */
  lemma OpeningPair(t: string)
    ensures ReplaceAll("<!--" + t, "--", EmDash) == "<!" + EmDash + ReplaceAll(t, "--", EmDash)
  {
    var s := "<!--" + t;
    assert s == "<!" + "--" + t;
    FirstCharAbsent("<!", "--", t);
    assert FirstOccurrence(s, "--", 2);
    ReplaceAllAtFirst(s, "--", EmDash, 2);
    assert s[..2] == "<!" && s[4..] == t;
  }

  /** No pair of hyphens starts inside a text without "--" that does not end
      with a hyphen. */
  lemma NoPairBefore(b: string, rest: string)
    requires |b| > 0 && !Contains(b, "--") && b[|b| - 1] != '-'
    ensures forall k: nat :: k < |b| ==> !OccursAt(b + "--" + rest, "--", k)
  {
    var t := b + "--" + rest;
    forall k: nat | k < |b| ensures !OccursAt(t, "--", k) {
      if k + 2 <= |b| {
        assert t[k..k + 2] == b[k..k + 2];
        assert !OccursAt(b, "--", k);
      } else {
        assert t[k..k + 2][0] == b[|b| - 1];
      }
    }
  }

  /** The pair of hyphens closing a comment is the only one in its text. */
  lemma ClosingPair(b: string)
    requires |b| > 0 && !Contains(b, "--") && b[|b| - 1] != '-'
    ensures ReplaceAll(b + "-->", "--", EmDash) == b + EmDash + ">"
  {
    NoPairBefore(b, ">");
    NotContainsChar(">", "--", 0);
    assert b + "-->" == b + "--" + ">";
    ReplaceAllSplit(b, "--", EmDash, ">");
  }

  /** The em-dash rewrite turns a comment's delimiters into damaged ones. */
  lemma DashesComment(b: string)
    requires |b| > 0 && !Contains(b, "--") && b[0] != '-' && b[|b| - 1] != '-'
    ensures Dashes("<!--" + b + "-->") == BrokenOpen + b + BrokenClose
  {
    var s := "<!--" + b + "-->";
    var dashed := "<!" + EmDash + (b + EmDash + ">");
    assert ReplaceAll(s, "---", EnDash) == s by {
      CommentNoTriple(b);
      ReplaceAllNoMatch(s, "---", EnDash);
    }
    assert ReplaceAll(s, "--", EmDash) == dashed by {
      assert s == "<!--" + (b + "-->");
      OpeningPair(b + "-->");
      ClosingPair(b);
    }
    DamagedDelimiters();
    assert dashed == BrokenOpen + b + BrokenClose;
  }

  /** The dash rewrite turns a comment's delimiters into exactly the two
      strings the repair looks for. */
  lemma DamagedDelimiters()
    ensures BrokenOpen == "<!" + EmDash && BrokenClose == EmDash + ">"
    ensures Dashes("<!--") == BrokenOpen && Dashes("-->") == BrokenClose
  {
    assert "<!" + "--" + "" == "<!--";
    EmDashAfter("<!", "");
    assert "" + "--" + ">" == "-->";
    EmDashAfter("", ">");
  }

  /** The repair restores damaged delimiters around a text holding neither
      angle bracket. */
  lemma RepairComment(b: string)
    requires '<' !in b && '>' !in b
    ensures FixComments(BrokenOpen + b + BrokenClose) == "<!-- " + b + " -->"
  {
    var x := BrokenOpen + b + BrokenClose;
    var front := "<!-- " + b;
    assert ReplaceAll(x, BrokenOpen, "<!-- ") == front + BrokenClose by {
      var tail := b + BrokenClose;
      assert x == "" + BrokenOpen + tail;
      assert '<' !in tail;
      NotContainsChar(tail, BrokenOpen, 0);
      ReplaceAllSplit("", BrokenOpen, "<!-- ", tail);
      assert "" + "<!-- " + tail == front + BrokenClose;
    }
    assert ReplaceAll(front + BrokenClose, BrokenClose, " -->") == front + " -->" by {
      assert front + BrokenClose == front + BrokenClose + "";
      assert '>' !in front + BrokenClose[..|BrokenClose| - 1];
      LastCharAbsent(front, BrokenClose, "");
      ReplaceAllSplit(front, BrokenClose, " -->", "");
    }
  }

  /** A comment whose text has no "--" and does not start or end with a
      hyphen comes through smartening with one space added inside each
      delimiter. */
  lemma SmartenComment(b: string)
    requires |b| > 0 && !Contains(b, "--") && b[0] != '-' && b[|b| - 1] != '-'
    requires '<' !in b && '>' !in b
    ensures SmartenPunctuation("<!--" + b + "-->") == "<!-- " + b + " -->"
  {
    DashesComment(b);
    RepairComment(b);
  }

  /** In an empty comment the three hyphens after `<!` are the first run. */
  lemma EmptyCommentTriple()
    ensures ReplaceAll(EmptyComment, "---", EnDash) == "<!" + EnDash + "->"
  {
    assert EmptyComment == "<!" + "---" + "->";
    FirstCharAbsent("<!", "---", "->");
    NoLongerRun("", "-", ">", "---", '-');
    assert "" + "-" + ">" == "->";
    ReplaceAllSplit("<!", "---", EnDash, "->");
  }

  /** The hyphen left after the en dash has no partner. */
  lemma EmptyCommentLoneHyphen(d: string)
    requires d == "<!" + EnDash + "->"
    ensures ReplaceAll(d, "--", EmDash) == d
  {
    assert d == "<!" + EnDash + "-" + ">";
    NoLongerRun("<!" + EnDash, "-", ">", "--", '-');
    ReplaceAllNoMatch(d, "--", EmDash);
  }

  /** Neither damaged delimiter appears in a text without the digit 4. */
  lemma FixCommentsWithoutFour(d: string)
    requires '4' !in d
    ensures FixComments(d) == d
  {
    assert BrokenOpen[9] == '4' && BrokenClose[7] == '4';
    NotContainsChar(d, BrokenOpen, 9);
    NotContainsChar(d, BrokenClose, 7);
    ReplaceAllNoMatch(d, BrokenOpen, "<!-- ");
    ReplaceAllNoMatch(d, BrokenClose, " -->");
  }

  lemma NoFourInEnDashComment(d: string)
    requires d == "<!" + EnDash + "->"
    ensures '4' !in d
  {
    assert d == "<! &#x2013; ->";
  }

  /** An empty comment `<!---->` holds a run of four hyphens: it becomes an
      en dash followed by a hyphen, which the repair does not recognise. */
  lemma EmptyCommentNotRepaired()
    ensures SmartenPunctuation(EmptyComment) == "<!" + EnDash + "->"
  {
    var d := "<!" + EnDash + "->";
    EmptyCommentTriple();
    EmptyCommentLoneHyphen(d);
    NoFourInEnDashComment(d);
    FixCommentsWithoutFour(d);
  }
}

/** Clean-up of the tree for Kobo readers (kepub/content.go: cleanHTML).

    Each removal rule selects every element that matches in the current
    tree, evaluating its predicate before anything is removed, and then
    detaches them all. A match inside a removed match disappears with it, so
    a rule is a top-down filter: a matching element goes with its subtree,
    any other element keeps its place and the filter goes on in its
    children. */
module Cleaner {
  import opened Wrappers
  import opened Strings
  import opened Html

  /** The removal rules, in the order they run. */
  datatype Rule =
    | AdeptMeta     // meta[name="Adept.expected.resource"], the Adobe DRM marker
    | BlankOP       // Word's `o:p` with blank text
    | BlankHeading  // h1 .. h6 with blank text
    | St1Tag        // Word's smart tags: any tag starting with "st1:"

  predicate IsHeading(tag: string) {
    tag == "h1" || tag == "h2" || tag == "h3" || tag == "h4" || tag == "h5" || tag == "h6"
  }

  /** The text test of the blank rules: `strings.Trim(text, "\t \n") == ""`. */
  predicate BlankText(cs: seq<Node>) {
    Blank(TextOfList(cs), TabSpaceLine)
  }

  predicate Matches(r: Rule, n: Node) {
    match n
    case Element(tag, attrs, cs) =>
      (match r
       case AdeptMeta => tag == "meta" && HasAttrValue(attrs, "name", "Adept.expected.resource")
       case BlankOP => tag == "o:p" && BlankText(cs)
       case BlankHeading => IsHeading(tag) && BlankText(cs)
       case St1Tag => "st1:" <= tag)
    case _ => false
  }

  /** The rules whose test reads the element's text. */
  predicate IsBlankRule(r: Rule) {
    r.BlankOP? || r.BlankHeading?
  }

  /** Applies rule `r` below `n`, which is itself kept. */
  function Prune(r: Rule, n: Node): (p: Node)
    ensures p.Element? == n.Element?
    ensures n.Element? ==> p.tag == n.tag && p.attrs == n.attrs && |p.children| <= |n.children|
    ensures !n.Element? ==> p == n
    decreases n
  {
    match n
    case Element(tag, attrs, cs) => Element(tag, attrs, RemoveList(r, cs))
    case _ => n
  }

  /** Removes the siblings that match `r` and prunes the others. */
  function RemoveList(r: Rule, ns: seq<Node>): (out: seq<Node>)
    ensures |out| <= |ns|
    decreases ns
  {
    if |ns| == 0 then []
    else (if Matches(r, ns[0]) then [] else [Prune(r, ns[0])]) + RemoveList(r, ns[1..])
  }

  /** No element of the subtree matches `r`. */
  predicate NoneMatch(r: Rule, n: Node)
    decreases n
  {
    match n
    case Element(_, _, cs) => !Matches(r, n) && NoneMatchList(r, cs)
    case _ => true
  }

  predicate NoneMatchList(r: Rule, ns: seq<Node>)
    decreases ns
  {
    |ns| == 0 || (NoneMatch(r, ns[0]) && NoneMatchList(r, ns[1..]))
  }

  // ---------------------------------------------------------------------------
  // Removal

  /** The blank rules only remove whitespace-only text, so the visible text
      of what stays is unchanged. */
  lemma {:induction false} RemoveKeepsVisible(r: Rule, ns: seq<Node>)
    requires IsBlankRule(r)
    ensures Visible(TextOfList(RemoveList(r, ns)), TabSpaceLine) == Visible(TextOfList(ns), TabSpaceLine)
    decreases ns
  {
    if |ns| > 0 {
      RemoveKeepsVisible(r, ns[1..]);
      var rest := RemoveList(r, ns[1..]);
      VisibleConcat(TextOf(ns[0]), TextOfList(ns[1..]), TabSpaceLine);
      if Matches(r, ns[0]) {
        BlankIffInvisible(TextOf(ns[0]), TabSpaceLine);
        assert RemoveList(r, ns) == rest;
      } else {
        PruneKeepsVisible(r, ns[0]);
        var p := Prune(r, ns[0]);
        assert RemoveList(r, ns) == [p] + rest;
        assert ([p] + rest)[0] == p && ([p] + rest)[1..] == rest;
        VisibleConcat(TextOf(p), TextOfList(rest), TabSpaceLine);
      }
    }
  }

  lemma {:induction false} PruneKeepsVisible(r: Rule, n: Node)
    requires IsBlankRule(r)
    ensures Visible(TextOf(Prune(r, n)), TabSpaceLine) == Visible(TextOf(n), TabSpaceLine)
    decreases n
  {
    match n
    case Element(_, _, cs) => RemoveKeepsVisible(r, cs);
    case _ =>
  }

  /** Whether an element matches depends on its text only through the
      visible characters. */
  lemma MatchesByVisible(r: Rule, tag: string, attrs: seq<Attr>, cs: seq<Node>, cs': seq<Node>)
    requires IsBlankRule(r) ==> Visible(TextOfList(cs), TabSpaceLine) == Visible(TextOfList(cs'), TabSpaceLine)
    ensures Matches(r, Element(tag, attrs, cs)) == Matches(r, Element(tag, attrs, cs'))
  {
    BlankIffInvisible(TextOfList(cs), TabSpaceLine);
    BlankIffInvisible(TextOfList(cs'), TabSpaceLine);
  }

  /** After a rule has run, nothing matches it. */
  lemma {:induction false} RemoveSound(r: Rule, ns: seq<Node>)
    ensures NoneMatchList(r, RemoveList(r, ns))
    decreases ns
  {
    if |ns| > 0 {
      RemoveSound(r, ns[1..]);
      var rest := RemoveList(r, ns[1..]);
      if !Matches(r, ns[0]) {
        PruneSound(r, ns[0]);
        var p := Prune(r, ns[0]);
        assert ([p] + rest)[0] == p && ([p] + rest)[1..] == rest;
      } else {
        assert RemoveList(r, ns) == rest;
      }
    }
  }

  lemma {:induction false} PruneSound(r: Rule, n: Node)
    requires !Matches(r, n)
    ensures NoneMatch(r, Prune(r, n))
    decreases n
  {
    match n
    case Element(tag, attrs, cs) =>
      RemoveSound(r, cs);
      if IsBlankRule(r) {
        RemoveKeepsVisible(r, cs);
      }
      MatchesByVisible(r, tag, attrs, cs, RemoveList(r, cs));
    case _ =>
  }

  /** A rule finds nothing to do in a tree where nothing matches it, so
      running it twice is running it once. */
  lemma {:induction false} RemoveIdentity(r: Rule, ns: seq<Node>)
    requires NoneMatchList(r, ns)
    ensures RemoveList(r, ns) == ns
    decreases ns
  {
    if |ns| > 0 {
      RemoveIdentity(r, ns[1..]);
      PruneIdentity(r, ns[0]);
      assert ns == [ns[0]] + ns[1..];
    }
  }

  lemma {:induction false} PruneIdentity(r: Rule, n: Node)
    requires NoneMatch(r, n)
    ensures Prune(r, n) == n
    decreases n
  {
    match n
    case Element(_, _, cs) => RemoveIdentity(r, cs);
    case _ =>
  }

  lemma RemoveIdempotent(r: Rule, ns: seq<Node>)
    ensures RemoveList(r, RemoveList(r, ns)) == RemoveList(r, ns)
  {
    RemoveSound(r, ns);
    RemoveIdentity(r, RemoveList(r, ns));
  }

  /** A later rule cannot bring back what an earlier one removed, unless the
      later rule removes text and the earlier one reads it. */
  lemma {:induction false} RemovePreserves(r: Rule, r': Rule, ns: seq<Node>)
    requires IsBlankRule(r') || !IsBlankRule(r)
    requires NoneMatchList(r, ns)
    ensures NoneMatchList(r, RemoveList(r', ns))
    decreases ns
  {
    if |ns| > 0 {
      RemovePreserves(r, r', ns[1..]);
      var rest := RemoveList(r', ns[1..]);
      if !Matches(r', ns[0]) {
        PrunePreserves(r, r', ns[0]);
        var p := Prune(r', ns[0]);
        assert ([p] + rest)[0] == p && ([p] + rest)[1..] == rest;
      } else {
        assert RemoveList(r', ns) == rest;
      }
    }
  }

  lemma {:induction false} PrunePreserves(r: Rule, r': Rule, n: Node)
    requires IsBlankRule(r') || !IsBlankRule(r)
    requires NoneMatch(r, n)
    ensures NoneMatch(r, Prune(r', n))
    decreases n
  {
    match n
    case Element(tag, attrs, cs) =>
      RemovePreserves(r, r', cs);
      if IsBlankRule(r') {
        RemoveKeepsVisible(r', cs);
      }
      MatchesByVisible(r, tag, attrs, cs, RemoveList(r', cs));
    case _ =>
  }

  // ---------------------------------------------------------------------------
  // What a removal keeps

  /** The number of `t` elements that neither match `r` nor lie inside a
      match. */
  function CountOutside(r: Rule, n: Node, t: string): nat
    decreases n
  {
    match n
    case Element(tag, _, cs) =>
      if Matches(r, n) then 0 else (if tag == t then 1 else 0) + CountOutsideList(r, cs, t)
    case _ => 0
  }

  function CountOutsideList(r: Rule, ns: seq<Node>, t: string): nat
    decreases ns
  {
    if |ns| == 0 then 0 else CountOutside(r, ns[0], t) + CountOutsideList(r, ns[1..], t)
  }

  /** A rule removes the matched subtrees and nothing else: every element
      outside them stays, and none is added. */
  lemma {:induction false} RemoveKeepsOthers(r: Rule, ns: seq<Node>, t: string)
    ensures CountTagList(RemoveList(r, ns), t) == CountOutsideList(r, ns, t)
    decreases ns
  {
    if |ns| > 0 {
      RemoveKeepsOthers(r, ns[1..], t);
      var rest := RemoveList(r, ns[1..]);
      if Matches(r, ns[0]) {
        assert RemoveList(r, ns) == rest;
      } else {
        PruneKeepsOthers(r, ns[0], t);
        var p := Prune(r, ns[0]);
        assert RemoveList(r, ns) == [p] + rest;
        assert ([p] + rest)[0] == p && ([p] + rest)[1..] == rest;
      }
    }
  }

  lemma {:induction false} PruneKeepsOthers(r: Rule, n: Node, t: string)
    requires !Matches(r, n)
    ensures CountTag(Prune(r, n), t) == CountOutside(r, n, t)
    decreases n
  {
    match n
    case Element(_, _, cs) => RemoveKeepsOthers(r, cs, t);
    case _ =>
  }

  /** The tags some removal rule can match. */
  predicate CleanerTag(t: string) {
    t == "meta" || t == "o:p" || IsHeading(t) || "st1:" <= t
  }

  /** The wrappers, the spans and the style sheet are none of them. */
  lemma CleanerTagsAreOthers(t: string)
    requires CleanerTag(t)
    ensures t != "div" && t != "span" && t != "style"
  {
    if "st1:" <= t {
      assert t[1] == "st1:"[1] == 't';
      assert "span"[1] == 'p' && "style"[1] == 't' && "style"[2] == 'y';
      assert t[2] == "st1:"[2] == '1';
    }
  }

  /** No element that any removal rule could match. */
  ghost predicate NothingToRemove(ns: seq<Node>) {
    forall t :: CleanerTag(t) ==> CountTagList(ns, t) == 0
  }

  lemma {:induction false} NothingMatches(r: Rule, ns: seq<Node>)
    requires NothingToRemove(ns)
    ensures NoneMatchList(r, ns)
    decreases ns
  {
    if |ns| > 0 {
      forall t | CleanerTag(t) ensures CountTagList(ns[1..], t) == 0 {
        assert CountTagList(ns, t) == CountTag(ns[0], t) + CountTagList(ns[1..], t);
      }
      NothingMatches(r, ns[1..]);
      NodeMatchesNothing(r, ns[0], ns);
    }
  }

  lemma {:induction false} NodeMatchesNothing(r: Rule, n: Node, ns: seq<Node>)
    requires |ns| > 0 && n == ns[0] && NothingToRemove(ns)
    ensures NoneMatch(r, n)
    decreases n, 0
  {
    match n
    case Element(tag, _, cs) =>
      forall t | CleanerTag(t) ensures CountTagList(cs, t) == 0 {
        assert CountTagList(ns, t) == CountTag(n, t) + CountTagList(ns[1..], t);
      }
      assert CountTagList(ns, tag) == CountTag(n, tag) + CountTagList(ns[1..], tag);
      NothingMatches(r, cs);
    case _ =>
  }

  // ---------------------------------------------------------------------------
  // Opening self-closing paragraphs

  /** A `p` without element children whose text is blank (cutset "\n \t"). */
  predicate BlankP(n: Node) {
    n.Element? && n.tag == "p" && Elements(n.children) == [] && BlankText(n.children)
  }

  /** `s.SetHtml("")` on every blank paragraph. */
  function NormalizeP(n: Node): (r: Node)
    ensures r.Element? == n.Element?
    ensures n.Element? ==> r.tag == n.tag && r.attrs == n.attrs
    ensures BlankP(n) ==> r.children == []
    decreases n
  {
    match n
    case Element(tag, attrs, cs) =>
      if BlankP(n) then Element(tag, attrs, []) else Element(tag, attrs, NormalizePList(cs))
    case _ => n
  }

  function NormalizePList(ns: seq<Node>): (r: seq<Node>)
    ensures |r| == |ns|
    decreases ns
  {
    if |ns| == 0 then [] else [NormalizeP(ns[0])] + NormalizePList(ns[1..])
  }

  /** Every blank paragraph is empty. */
  predicate PNormal(n: Node)
    decreases n
  {
    match n
    case Element(_, _, cs) => (BlankP(n) ==> cs == []) && PNormalList(cs)
    case _ => true
  }

  predicate PNormalList(ns: seq<Node>)
    decreases ns
  {
    |ns| == 0 || (PNormal(ns[0]) && PNormalList(ns[1..]))
  }

  /** Emptying blank paragraphs loses only whitespace. */
  lemma {:induction false} NormalizePShape(n: Node)
    ensures Visible(TextOf(NormalizeP(n)), TabSpaceLine) == Visible(TextOf(n), TabSpaceLine)
    decreases n
  {
    match n
    case Element(tag, attrs, cs) =>
      if BlankP(n) {
        BlankIffInvisible(TextOfList(cs), TabSpaceLine);
      } else {
        NormalizePListShape(cs);
      }
    case _ =>
  }

  lemma {:induction false} NormalizePListShape(ns: seq<Node>)
    ensures forall i :: 0 <= i < |ns| ==> NormalizePList(ns)[i].Element? == ns[i].Element?
    ensures Elements(NormalizePList(ns)) == [] <==> Elements(ns) == []
    ensures Visible(TextOfList(NormalizePList(ns)), TabSpaceLine) == Visible(TextOfList(ns), TabSpaceLine)
    decreases ns
  {
    if |ns| > 0 {
      var r := NormalizePList(ns);
      NormalizePShape(ns[0]);
      NormalizePListShape(ns[1..]);
      assert r[0] == NormalizeP(ns[0]) && r[1..] == NormalizePList(ns[1..]);
      assert forall i :: 0 < i < |ns| ==> r[i] == r[1..][i - 1] && ns[i] == ns[1..][i - 1];
      ElementsEmptyIff(ns);
      ElementsEmptyIff(r);
      VisibleConcat(TextOf(ns[0]), TextOfList(ns[1..]), TabSpaceLine);
      VisibleConcat(TextOf(r[0]), TextOfList(r[1..]), TabSpaceLine);
    }
  }

  lemma {:induction false} NormalizePSound(n: Node)
    ensures PNormal(NormalizeP(n))
    decreases n
  {
    match n
    case Element(tag, attrs, cs) =>
      if !BlankP(n) {
        NormalizePListSound(cs);
        NormalizePListShape(cs);
        BlankIffInvisible(TextOfList(cs), TabSpaceLine);
        BlankIffInvisible(TextOfList(NormalizePList(cs)), TabSpaceLine);
      }
    case _ =>
  }

  lemma {:induction false} NormalizePListSound(ns: seq<Node>)
    ensures PNormalList(NormalizePList(ns))
    decreases ns
  {
    if |ns| > 0 {
      NormalizePSound(ns[0]);
      NormalizePListSound(ns[1..]);
      var r := NormalizePList(ns);
      assert r[0] == NormalizeP(ns[0]) && r[1..] == NormalizePList(ns[1..]);
    }
  }

  /** Emptying blank paragraphs brings back no removed element. */
  lemma {:induction false} NormalizePPreserves(r: Rule, n: Node)
    requires NoneMatch(r, n)
    ensures NoneMatch(r, NormalizeP(n))
    decreases n
  {
    match n
    case Element(tag, attrs, cs) =>
      if BlankP(n) {
        BlankIffInvisible(TextOfList(cs), TabSpaceLine);
        MatchesByVisible(r, tag, attrs, cs, []);
      } else {
        NormalizePListPreserves(r, cs);
        NormalizePListShape(cs);
        MatchesByVisible(r, tag, attrs, cs, NormalizePList(cs));
      }
    case _ =>
  }

  lemma {:induction false} NormalizePListPreserves(r: Rule, ns: seq<Node>)
    requires NoneMatchList(r, ns)
    ensures NoneMatchList(r, NormalizePList(ns))
    decreases ns
  {
    if |ns| > 0 {
      NormalizePPreserves(r, ns[0]);
      NormalizePListPreserves(r, ns[1..]);
      var out := NormalizePList(ns);
      assert out[0] == NormalizeP(ns[0]) && out[1..] == NormalizePList(ns[1..]);
    }
  }

  // ---------------------------------------------------------------------------
  // Style types

  /** `doc.Find("style").SetAttr("type", "text/css")` */
  function SetStyleType(n: Node): (r: Node)
    ensures r.Element? == n.Element?
    ensures n.Element? ==> r.tag == n.tag
    ensures n.Element? && n.tag != "style" ==> r.attrs == n.attrs
    ensures n.Element? && n.tag == "style" ==>
              && GetAttr(r.attrs, "type") == Some("text/css")
              && KeyCount(r.attrs, "type") == (if GetAttr(n.attrs, "type").Some? then KeyCount(n.attrs, "type") else 1)
              && forall k :: k != "type" ==> GetAttr(r.attrs, k) == GetAttr(n.attrs, k)
    decreases n
  {
    match n
    case Element(tag, attrs, cs) =>
      Element(tag, if tag == "style" then SetAttr(attrs, "type", "text/css") else attrs, SetStyleTypeList(cs))
    case _ => n
  }

  function SetStyleTypeList(ns: seq<Node>): (r: seq<Node>)
    ensures |r| == |ns|
    decreases ns
  {
    if |ns| == 0 then [] else [SetStyleType(ns[0])] + SetStyleTypeList(ns[1..])
  }

  /** Every style element has type text/css. */
  predicate StylesTyped(n: Node)
    decreases n
  {
    match n
    case Element(tag, attrs, cs) =>
      (tag == "style" ==> GetAttr(attrs, "type") == Some("text/css")) && StylesTypedList(cs)
    case _ => true
  }

  predicate StylesTypedList(ns: seq<Node>)
    decreases ns
  {
    |ns| == 0 || (StylesTyped(ns[0]) && StylesTypedList(ns[1..]))
  }

  /** Setting the type keeps the text. */
  lemma {:induction false} SetStyleTypeShape(n: Node)
    ensures TextOf(SetStyleType(n)) == TextOf(n)
    decreases n
  {
    match n
    case Element(_, _, cs) => SetStyleTypeListShape(cs);
    case _ =>
  }

  lemma {:induction false} SetStyleTypeListShape(ns: seq<Node>)
    ensures forall i :: 0 <= i < |ns| ==> SetStyleTypeList(ns)[i].Element? == ns[i].Element?
    ensures Elements(SetStyleTypeList(ns)) == [] <==> Elements(ns) == []
    ensures TextOfList(SetStyleTypeList(ns)) == TextOfList(ns)
    decreases ns
  {
    if |ns| > 0 {
      var r := SetStyleTypeList(ns);
      SetStyleTypeShape(ns[0]);
      SetStyleTypeListShape(ns[1..]);
      assert r[0] == SetStyleType(ns[0]) && r[1..] == SetStyleTypeList(ns[1..]);
      assert forall i :: 0 < i < |ns| ==> r[i] == r[1..][i - 1] && ns[i] == ns[1..][i - 1];
      ElementsEmptyIff(ns);
      ElementsEmptyIff(r);
    }
  }

  lemma {:induction false} SetStyleTypeSound(n: Node)
    ensures StylesTyped(SetStyleType(n))
    decreases n
  {
    match n
    case Element(_, _, cs) => SetStyleTypeListSound(cs);
    case _ =>
  }

  lemma {:induction false} SetStyleTypeListSound(ns: seq<Node>)
    ensures StylesTypedList(SetStyleTypeList(ns))
    decreases ns
  {
    if |ns| > 0 {
      SetStyleTypeSound(ns[0]);
      SetStyleTypeListSound(ns[1..]);
      var r := SetStyleTypeList(ns);
      assert r[0] == SetStyleType(ns[0]) && r[1..] == SetStyleTypeList(ns[1..]);
    }
  }

  /** Setting the type neither brings back a removed element nor un-empties
      a paragraph. */
  lemma {:induction false} SetStyleTypePreserves(r: Rule, n: Node)
    ensures NoneMatch(r, n) ==> NoneMatch(r, SetStyleType(n))
    ensures PNormal(n) ==> PNormal(SetStyleType(n))
    decreases n
  {
    match n
    case Element(tag, attrs, cs) =>
      SetStyleTypeListPreserves(r, cs);
      SetStyleTypeListShape(cs);
    case _ =>
  }

  lemma {:induction false} SetStyleTypeListPreserves(r: Rule, ns: seq<Node>)
    ensures NoneMatchList(r, ns) ==> NoneMatchList(r, SetStyleTypeList(ns))
    ensures PNormalList(ns) ==> PNormalList(SetStyleTypeList(ns))
    decreases ns
  {
    if |ns| > 0 {
      SetStyleTypePreserves(r, ns[0]);
      SetStyleTypeListPreserves(r, ns[1..]);
      var out := SetStyleTypeList(ns);
      assert out[0] == SetStyleType(ns[0]) && out[1..] == SetStyleTypeList(ns[1..]);
    }
  }

  // ---------------------------------------------------------------------------
  // Element counts of the last two steps

  lemma {:induction false} NoElementsNoTags(ns: seq<Node>, t: string)
    requires Elements(ns) == []
    ensures CountTagList(ns, t) == 0
    decreases ns
  {
    if |ns| > 0 {
      NoElementsNoTags(ns[1..], t);
    }
  }

  /** Emptying a blank paragraph removes only text, so no element goes. */
  lemma {:induction false} NormalizePCount(n: Node, t: string)
    ensures CountTag(NormalizeP(n), t) == CountTag(n, t)
    decreases n
  {
    match n
    case Element(_, _, cs) =>
      if BlankP(n) {
        NoElementsNoTags(cs, t);
      } else {
        NormalizePListCount(cs, t);
      }
    case _ =>
  }

  lemma {:induction false} NormalizePListCount(ns: seq<Node>, t: string)
    ensures CountTagList(NormalizePList(ns), t) == CountTagList(ns, t)
    decreases ns
  {
    if |ns| > 0 {
      NormalizePCount(ns[0], t);
      NormalizePListCount(ns[1..], t);
      var r := NormalizePList(ns);
      assert r[0] == NormalizeP(ns[0]) && r[1..] == NormalizePList(ns[1..]);
    }
  }

  lemma {:induction false} SetStyleTypeCount(n: Node, t: string)
    ensures CountTag(SetStyleType(n), t) == CountTag(n, t)
    decreases n
  {
    match n
    case Element(_, _, cs) => SetStyleTypeListCount(cs, t);
    case _ =>
  }

  lemma {:induction false} SetStyleTypeListCount(ns: seq<Node>, t: string)
    ensures CountTagList(SetStyleTypeList(ns), t) == CountTagList(ns, t)
    decreases ns
  {
    if |ns| > 0 {
      SetStyleTypeCount(ns[0], t);
      SetStyleTypeListCount(ns[1..], t);
      var r := SetStyleTypeList(ns);
      assert r[0] == SetStyleType(ns[0]) && r[1..] == SetStyleTypeList(ns[1..]);
    }
  }

  // ---------------------------------------------------------------------------
  // cleanHTML

  /** The four removals, then the paragraphs, then the style types. */
  function CleanHTML(d: Document): (r: Document)
    ensures NoneMatchList(AdeptMeta, r.roots)
    ensures NoneMatchList(St1Tag, r.roots)
    ensures NoneMatchList(St1Tag, d.roots) ==>
              NoneMatchList(BlankOP, r.roots) && NoneMatchList(BlankHeading, r.roots)
    ensures PNormalList(r.roots)
    ensures StylesTypedList(r.roots)
  {
    var r1 := RemoveList(AdeptMeta, d.roots);
    var r2 := RemoveList(BlankOP, r1);
    var r3 := RemoveList(BlankHeading, r2);
    var r4 := RemoveList(St1Tag, r3);
    var r5 := NormalizePList(r4);
    CleanHTMLProof(d.roots, r1, r2, r3, r4, r5);
    Document(SetStyleTypeList(r5))
  }

  lemma CleanHTMLProof(ns: seq<Node>, r1: seq<Node>, r2: seq<Node>, r3: seq<Node>, r4: seq<Node>, r5: seq<Node>)
    requires r1 == RemoveList(AdeptMeta, ns)
    requires r2 == RemoveList(BlankOP, r1)
    requires r3 == RemoveList(BlankHeading, r2)
    requires r4 == RemoveList(St1Tag, r3)
    requires r5 == NormalizePList(r4)
    ensures var out := SetStyleTypeList(r5);
            && NoneMatchList(AdeptMeta, out)
            && NoneMatchList(St1Tag, out)
            && (NoneMatchList(St1Tag, ns) ==> NoneMatchList(BlankOP, out) && NoneMatchList(BlankHeading, out))
            && PNormalList(out)
            && StylesTypedList(out)
  {
    RemoveSound(AdeptMeta, ns);
    RemovePreserves(AdeptMeta, BlankOP, r1);
    RemovePreserves(AdeptMeta, BlankHeading, r2);
    RemovePreserves(AdeptMeta, St1Tag, r3);
    RemoveSound(BlankOP, r1);
    RemovePreserves(BlankOP, BlankHeading, r2);
    RemoveSound(BlankHeading, r2);
    RemoveSound(St1Tag, r3);
    if NoneMatchList(St1Tag, ns) {
      RemovePreserves(St1Tag, AdeptMeta, ns);
      RemovePreserves(St1Tag, BlankOP, r1);
      RemovePreserves(St1Tag, BlankHeading, r2);
      RemoveIdentity(St1Tag, r3);
    }
    NormalizePListSound(r4);
    NormalizePListPreserves(AdeptMeta, r4);
    NormalizePListPreserves(St1Tag, r4);
    if NoneMatchList(BlankOP, r4) {
      NormalizePListPreserves(BlankOP, r4);
    }
    if NoneMatchList(BlankHeading, r4) {
      NormalizePListPreserves(BlankHeading, r4);
    }
    SetStyleTypeListPreserves(AdeptMeta, r5);
    SetStyleTypeListPreserves(St1Tag, r5);
    SetStyleTypeListPreserves(BlankOP, r5);
    SetStyleTypeListPreserves(BlankHeading, r5);
    SetStyleTypeListSound(r5);
  }

  /** On a document holding no element any removal rule could match, the
      clean-up keeps every element: only paragraph text and style
      attributes change. */
  lemma CleanHTMLKeepsAll(d: Document, t: string)
    requires NothingToRemove(d.roots)
    ensures CountTagList(CleanHTML(d).roots, t) == CountTagList(d.roots, t)
  {
    var ns := d.roots;
    NothingMatches(AdeptMeta, ns);
    NothingMatches(BlankOP, ns);
    NothingMatches(BlankHeading, ns);
    NothingMatches(St1Tag, ns);
    RemoveIdentity(AdeptMeta, ns);
    RemoveIdentity(BlankOP, ns);
    RemoveIdentity(BlankHeading, ns);
    RemoveIdentity(St1Tag, ns);
    NormalizePListCount(ns, t);
    SetStyleTypeListCount(NormalizePList(ns), t);
  }

  /** `<h1><st1:x>T</st1:x></h1>` and `<h1></h1>`. */
  const HeadingWithSt1: Document := Document([Element("h1", [], [Element("st1:x", [], [Text("T")])])])
  const EmptyHeading: Node := Element("h1", [], [])

  /** The clean-up is not idempotent: headings are judged before the st1
      tags inside them go, so `<h1><st1:x>T</st1:x></h1>` keeps an empty h1,
      which a second pass removes. */
  lemma CleanHTMLNotIdempotent()
    ensures CleanHTML(HeadingWithSt1) == Document([EmptyHeading])
    ensures CleanHTML(CleanHTML(HeadingWithSt1)) == Document([])
  {
    CleanHeadingWithSt1();
    CleanEmptyHeading();
  }

  lemma CleanHeadingWithSt1()
    ensures CleanHTML(HeadingWithSt1) == Document([EmptyHeading])
  {
    HeadingKept(AdeptMeta);
    HeadingKept(BlankOP);
    HeadingKept(BlankHeading);
    St1Removed();
    EmptyHeadingNormal();
  }

  /** Only the st1 rule touches `<h1><st1:x>T</st1:x></h1>`: the heading has text. */
  lemma HeadingKept(r: Rule)
    requires r != St1Tag
    ensures RemoveList(r, HeadingWithSt1.roots) == HeadingWithSt1.roots
  {
    var st := Element("st1:x", [], [Text("T")]);
    var h := Element("h1", [], [st]);
    var t := [Text("T")];
    assert TextOfList(t) == "T" + TextOfList([]);
    assert TextOfList([st]) == TextOf(st) + TextOfList([]);
    assert Trim("T", TabSpaceLine) == "T";
    assert RemoveList(r, t) == t;
    assert RemoveList(r, [st]) == [st];
  }

  lemma St1Removed()
    ensures RemoveList(St1Tag, HeadingWithSt1.roots) == [EmptyHeading]
  {
    var st := Element("st1:x", [], [Text("T")]);
    assert RemoveList(St1Tag, [st]) == [];
  }

  lemma EmptyHeadingNormal()
    ensures NormalizePList([EmptyHeading]) == [EmptyHeading]
    ensures SetStyleTypeList([EmptyHeading]) == [EmptyHeading]
  {
  }

  lemma CleanEmptyHeading()
    ensures CleanHTML(Document([EmptyHeading])) == Document([])
  {
    var e := EmptyHeading;
    assert RemoveList(AdeptMeta, [e]) == [e];
    assert RemoveList(BlankOP, [e]) == [e];
    assert Trim("", TabSpaceLine) == "";
    assert RemoveList(BlankHeading, [e]) == [];
  }
}

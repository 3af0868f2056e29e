/** What the span walk guarantees (kepub/content.go:98-177). */
module SpanProperties {
  import opened Wrappers
  import opened Strings
  import opened Html
  import opened Sentences
  import opened Spans

  // ---------------------------------------------------------------------------
  // The three cases of the walk, one at a time

  lemma WalkInert(n: Node, parentTag: string, c: Counter)
    requires Inert(n, parentTag)
    ensures WalkNode(n, parentTag, c) == Walk([n], c, [])
    ensures WalkList([n], parentTag, c) == Walk([n], c, [])
  {
    assert [n][1..] == [];
  }

  lemma WalkText(s: string, parentTag: string, c: Counter)
    requires parentTag != "pre"
    ensures WalkNode(Text(s), parentTag, c) == EmitSpans(Fragments(s), Counter(c.paragraph, c.segment + 1))
  {
  }

  lemma WalkElement(n: Node, parentTag: string, c: Counter)
    requires n.Element? && n.tag != "img"
    ensures var w := WalkList(n.children, n.tag, Enter(n.tag, c));
            WalkNode(n, parentTag, c) == Walk([Element(n.tag, n.attrs, w.nodes)], w.ctr, w.labels)
  {
  }

  // ---------------------------------------------------------------------------
  // One text node

  /** A text node outside `<pre>` is replaced by one span per non-blank
      fragment, in order, labelled with the segments that follow the one the
      node itself consumed; the fragments together are the original text. */
  lemma TextNodeSpans(s: string, parentTag: string, c: Counter)
    requires parentTag != "pre"
    ensures var w := WalkNode(Text(s), parentTag, c);
            var spans := NonBlankFragments(Fragments(s));
            && Concat(Fragments(s)) == s
            && |w.nodes| == |spans| == |w.labels|
            && w.ctr == Counter(c.paragraph, c.segment + 1 + |spans|)
            && (forall i :: 0 <= i < |spans| ==>
                  w.labels[i] == Counter(c.paragraph, c.segment + 1 + i)
                  && w.nodes[i] == CreateSpan(w.labels[i], spans[i]))
  {
    var frags := Fragments(s);
    var c1 := Counter(c.paragraph, c.segment + 1);
    FragmentsPartition(s);
    assert WalkNode(Text(s), parentTag, c) == EmitSpans(frags, c1);
    EmitSpansShape(frags, c1);
  }

  /** A text node whose fragments are all blank disappears, while still
      consuming one segment. */
  lemma BlankTextVanishes(s: string, parentTag: string, c: Counter)
    requires parentTag != "pre"
    requires AllSpace(s, UnicodeSpace)
    ensures WalkNode(Text(s), parentTag, c) == Walk([], Counter(c.paragraph, c.segment + 1), [])
  {
    FragmentsPartition(s);
    AllBlankFragments(Fragments(s));
  }

  lemma {:induction false} AllBlankFragments(frags: seq<string>)
    requires AllSpace(Concat(frags), UnicodeSpace)
    ensures NonBlankFragments(frags) == []
    decreases |frags|
  {
    if |frags| > 0 {
      AllSpaceConcat(frags[0], Concat(frags[1..]), UnicodeSpace);
      TrimEmptyIffAllSpace(frags[0], UnicodeSpace);
      AllBlankFragments(frags[1..]);
    }
  }

  // ---------------------------------------------------------------------------
  // Counter order

  /** The labels are strictly increasing in document order. */
  predicate Increasing(ls: seq<Counter>) {
    forall i, j :: 0 <= i < j < |ls| ==> Before(ls[i], ls[j])
  }

  /** Every label comes after `lo` and no later than `hi`. */
  predicate Within(ls: seq<Counter>, lo: Counter, hi: Counter) {
    forall i :: 0 <= i < |ls| ==> Before(lo, ls[i]) && AtMost(ls[i], hi)
  }

  /** The labels of a walk from `c`: increasing, and between `c` and the final counters. */
  predicate WellLabelled(w: Walk, c: Counter) {
    AtMost(c, w.ctr) && Increasing(w.labels) && Within(w.labels, c, w.ctr)
  }

  lemma ThenWellLabelled(a: Walk, b: Walk, c: Counter)
    requires WellLabelled(a, c) && WellLabelled(b, a.ctr)
    ensures WellLabelled(Then(a, b), c)
  {
    var ls := a.labels + b.labels;
    forall i | 0 <= i < |ls| ensures Before(c, ls[i]) && AtMost(ls[i], b.ctr) {
      if i >= |a.labels| {
        assert ls[i] == b.labels[i - |a.labels|];
      }
    }
    forall i, j | 0 <= i < j < |ls| ensures Before(ls[i], ls[j]) {
      if j < |a.labels| {
      } else if i >= |a.labels| {
        assert ls[i] == b.labels[i - |a.labels|] && ls[j] == b.labels[j - |a.labels|];
      } else {
        assert ls[j] == b.labels[j - |a.labels|];
      }
    }
  }

  /** Raising the lower bound of a walk's labels. */
  lemma WellLabelledFromEarlier(w: Walk, c: Counter, start: Counter)
    requires WellLabelled(w, start) && Before(c, start)
    ensures WellLabelled(w, c)
  {
  }

  /** Each label is new: `p`, `ol` and `ul` open a paragraph and restart the
      segments, each text node consumes one segment and each span another, so
      the labels of a walk strictly increase and stay between the counters
      before and after it. Nothing ever moves the counters backwards. */
  lemma {:induction false} WalkNodeOrdered(n: Node, parentTag: string, c: Counter)
    ensures WellLabelled(WalkNode(n, parentTag, c), c)
    ensures c.paragraph <= WalkNode(n, parentTag, c).ctr.paragraph
    decreases n
  {
    match n
    case Text(s) =>
      if parentTag != "pre" {
        TextNodeSpans(s, parentTag, c);
      }
    case Other(_) =>
    case Element(tag, attrs, cs) =>
      if tag != "img" {
        var start := Enter(tag, c);
        WalkListOrdered(cs, tag, start);
        if IsBlockTag(tag) {
          WellLabelledFromEarlier(WalkList(cs, tag, start), c, start);
        }
      }
  }

  lemma {:induction false} WalkListOrdered(ns: seq<Node>, parentTag: string, c: Counter)
    ensures WellLabelled(WalkList(ns, parentTag, c), c)
    ensures c.paragraph <= WalkList(ns, parentTag, c).ctr.paragraph
    decreases ns
  {
    if |ns| > 0 {
      var h := WalkNode(ns[0], parentTag, c);
      WalkNodeOrdered(ns[0], parentTag, c);
      WalkListOrdered(ns[1..], parentTag, h.ctr);
      ThenWellLabelled(h, WalkList(ns[1..], parentTag, h.ctr), c);
    }
  }

  lemma {:induction false} SpanBodiesOrdered(n: Node, c: Counter)
    ensures WellLabelled(SpanBodies(n, c), c)
    decreases n
  {
    match n
    case Element(tag, attrs, cs) =>
      if tag == "body" {
        WalkNodeOrdered(n, "", c);
      } else {
        SpanBodiesListOrdered(cs, c);
      }
    case _ =>
  }

  lemma {:induction false} SpanBodiesListOrdered(ns: seq<Node>, c: Counter)
    ensures WellLabelled(SpanBodiesList(ns, c), c)
    decreases ns
  {
    if |ns| > 0 {
      var h := SpanBodies(ns[0], c);
      SpanBodiesOrdered(ns[0], c);
      SpanBodiesListOrdered(ns[1..], h.ctr);
      ThenWellLabelled(h, SpanBodiesList(ns[1..], h.ctr), c);
    }
  }

  // ---------------------------------------------------------------------------
  // The markers in the output are exactly the inserted spans

  lemma IdsOfConcat(a: seq<Counter>, b: seq<Counter>)
    ensures IdsOf(a + b) == IdsOf(a) + IdsOf(b)
  {
    assert forall i :: 0 <= i < |a + b| ==> (a + b)[i] == if i < |a| then a[i] else b[i - |a|];
  }

  lemma {:induction false} EmitSpansIds(frags: seq<string>, c: Counter)
    ensures KoboSpanIdsList(EmitSpans(frags, c).nodes) == IdsOf(EmitSpans(frags, c).labels)
    decreases |frags|
  {
    if |frags| > 0 {
      if Blank(frags[0], UnicodeSpace) {
        EmitSpansIds(frags[1..], c);
      } else {
        var c' := Counter(c.paragraph, c.segment + 1);
        EmitSpansIds(frags[1..], c');
        EmitSpansIdsCons(frags, c);
      }
    }
  }

  /** The step of EmitSpansIds for a non-blank first fragment. */
  lemma EmitSpansIdsCons(frags: seq<string>, c: Counter)
    requires |frags| > 0 && !Blank(frags[0], UnicodeSpace)
    requires var rest := EmitSpans(frags[1..], Counter(c.paragraph, c.segment + 1));
             KoboSpanIdsList(rest.nodes) == IdsOf(rest.labels)
    ensures KoboSpanIdsList(EmitSpans(frags, c).nodes) == IdsOf(EmitSpans(frags, c).labels)
  {
    var rest := EmitSpans(frags[1..], Counter(c.paragraph, c.segment + 1));
    var span := CreateSpan(c, frags[0]);
    EmitSpansUnfold(frags, c);
    CreatedSpanIds(c, frags[0]);
    KoboSpanIdsConcat([span], rest.nodes);
    IdsOfConcat([c], rest.labels);
  }

  /** A created span contributes exactly its own id. */
  lemma CreatedSpanIds(c: Counter, text: string)
    ensures KoboSpanIdsList([CreateSpan(c, text)]) == [SpanId(c)] == IdsOf([c])
  {
    var span := CreateSpan(c, text);
    CreateSpanIsMarker(c, text);
    assert KoboSpanIdsList(span.children) == [];
    assert KoboSpanIds(span) == [SpanId(c)];
  }

  lemma ThenIds(a: Walk, b: Walk)
    requires KoboSpanIdsList(a.nodes) == IdsOf(a.labels)
    requires KoboSpanIdsList(b.nodes) == IdsOf(b.labels)
    ensures KoboSpanIdsList(Then(a, b).nodes) == IdsOf(Then(a, b).labels)
  {
    KoboSpanIdsConcat(a.nodes, b.nodes);
    IdsOfConcat(a.labels, b.labels);
  }

  /** In a tree without markers, the markers after the walk are exactly the
      spans it inserted, in the order of their labels. */
  lemma {:induction false} WalkNodeIds(n: Node, parentTag: string, c: Counter)
    requires KoboSpanIds(n) == []
    ensures var w := WalkNode(n, parentTag, c); KoboSpanIdsList(w.nodes) == IdsOf(w.labels)
    decreases n, 1
  {
    if n.Text? && parentTag != "pre" {
      WalkTextIds(n.data, parentTag, c);
    } else if n.Element? && n.tag != "img" {
      WalkElementIds(n, parentTag, c);
    } else {
      assert WalkNode(n, parentTag, c) == Walk([n], c, []);
      assert KoboSpanIdsList([n]) == KoboSpanIds(n) + KoboSpanIdsList([]);
    }
  }

  lemma WalkTextIds(s: string, parentTag: string, c: Counter)
    requires parentTag != "pre"
    ensures var w := WalkNode(Text(s), parentTag, c); KoboSpanIdsList(w.nodes) == IdsOf(w.labels)
  {
    var c1 := Counter(c.paragraph, c.segment + 1);
    assert WalkNode(Text(s), parentTag, c) == EmitSpans(Fragments(s), c1);
    EmitSpansIds(Fragments(s), c1);
  }

  lemma {:induction false} WalkElementIds(n: Node, parentTag: string, c: Counter)
    requires n.Element? && n.tag != "img" && KoboSpanIds(n) == []
    ensures var w := WalkNode(n, parentTag, c); KoboSpanIdsList(w.nodes) == IdsOf(w.labels)
    decreases n, 0
  {
    var start := Enter(n.tag, c);
    var inner := WalkList(n.children, n.tag, start);
    assert !IsKoboSpan(n) && KoboSpanIdsList(n.children) == [];
    WalkListIds(n.children, n.tag, start);
    var e := Element(n.tag, n.attrs, inner.nodes);
    assert WalkNode(n, parentTag, c) == Walk([e], inner.ctr, inner.labels);
    assert KoboSpanIdsList([e]) == KoboSpanIds(e) + KoboSpanIdsList([]);
  }

  lemma {:induction false} WalkListIds(ns: seq<Node>, parentTag: string, c: Counter)
    requires KoboSpanIdsList(ns) == []
    ensures var w := WalkList(ns, parentTag, c); KoboSpanIdsList(w.nodes) == IdsOf(w.labels)
    decreases ns
  {
    if |ns| > 0 {
      var h := WalkNode(ns[0], parentTag, c);
      WalkNodeIds(ns[0], parentTag, c);
      WalkListIds(ns[1..], parentTag, h.ctr);
      ThenIds(h, WalkList(ns[1..], parentTag, h.ctr));
    }
  }

  lemma {:induction false} SpanBodiesIds(n: Node, c: Counter)
    requires KoboSpanIds(n) == []
    ensures var w := SpanBodies(n, c); KoboSpanIdsList(w.nodes) == IdsOf(w.labels)
    decreases n
  {
    match n
    case Element(tag, attrs, cs) =>
      if tag == "body" {
        WalkNodeIds(n, "", c);
      } else {
        SpanBodiesListIds(cs, c);
        var e := Element(tag, attrs, SpanBodiesList(cs, c).nodes);
        assert KoboSpanIdsList([e]) == KoboSpanIds(e) + KoboSpanIdsList([]);
      }
    case _ =>
      assert KoboSpanIdsList([n]) == KoboSpanIds(n) + KoboSpanIdsList([]);
  }

  lemma {:induction false} SpanBodiesListIds(ns: seq<Node>, c: Counter)
    requires KoboSpanIdsList(ns) == []
    ensures var w := SpanBodiesList(ns, c); KoboSpanIdsList(w.nodes) == IdsOf(w.labels)
    decreases ns
  {
    if |ns| > 0 {
      var h := SpanBodies(ns[0], c);
      SpanBodiesIds(ns[0], c);
      SpanBodiesListIds(ns[1..], h.ctr);
      ThenIds(h, SpanBodiesList(ns[1..], h.ctr));
    }
  }

  /** After addSpans on a document without markers, the markers' ids read
      back as strictly increasing (paragraph, segment) labels in document
      order; in particular no two spans share an id. */
  lemma SpanIdsUnique(d: Document)
    requires !AlreadyProcessed(d)
    ensures var ids := KoboSpanIdsList(AddSpans(d).roots);
            var labels := AddSpansWalk(d).labels;
            && |ids| == |labels|
            && (forall i :: 0 <= i < |ids| ==> ParseSpanId(ids[i]) == Some(labels[i]))
            && Increasing(labels)
            && (forall i, j :: 0 <= i < j < |ids| ==> ids[i] != ids[j])
  {
    var w := AddSpansWalk(d);
    SpanBodiesListIds(d.roots, Counter(0, 0));
    SpanBodiesListOrdered(d.roots, Counter(0, 0));
    var ids := KoboSpanIdsList(AddSpans(d).roots);
    forall i | 0 <= i < |ids| ensures ParseSpanId(ids[i]) == Some(w.labels[i]) {
      ParseSpanIdRoundTrip(w.labels[i]);
    }
    forall i, j | 0 <= i < j < |ids| ensures ids[i] != ids[j] {
      assert Before(w.labels[i], w.labels[j]);
      assert ParseSpanId(ids[i]) != ParseSpanId(ids[j]);
    }
  }

  // ---------------------------------------------------------------------------
  // Text is preserved

  /** Dropping the blank fragments loses only whitespace. */
  lemma {:induction false} NonBlankKeepsVisible(frags: seq<string>)
    ensures Visible(Concat(NonBlankFragments(frags)), UnicodeSpace) == Visible(Concat(frags), UnicodeSpace)
    decreases |frags|
  {
    if |frags| > 0 {
      NonBlankKeepsVisible(frags[1..]);
      VisibleConcat(frags[0], Concat(frags[1..]), UnicodeSpace);
      var rest := NonBlankFragments(frags[1..]);
      if Blank(frags[0], UnicodeSpace) {
        assert NonBlankFragments(frags) == rest;
        BlankIffInvisible(frags[0], UnicodeSpace);
        assert Concat(frags) == frags[0] + Concat(frags[1..]);
      } else {
        assert NonBlankFragments(frags) == [frags[0]] + rest;
        assert Concat([frags[0]] + rest) == frags[0] + Concat(rest);
        VisibleConcat(frags[0], Concat(rest), UnicodeSpace);
      }
    }
  }

  lemma {:induction false} EmitSpansText(frags: seq<string>, c: Counter)
    ensures TextOfList(EmitSpans(frags, c).nodes) == Concat(NonBlankFragments(frags))
    decreases |frags|
  {
    if |frags| > 0 {
      if Blank(frags[0], UnicodeSpace) {
        EmitSpansText(frags[1..], c);
        assert EmitSpans(frags, c) == EmitSpans(frags[1..], c);
        assert NonBlankFragments(frags) == NonBlankFragments(frags[1..]);
      } else {
        EmitSpansText(frags[1..], Counter(c.paragraph, c.segment + 1));
        EmitSpansTextCons(frags, c);
      }
    }
  }

  /** The step of EmitSpansText for a non-blank first fragment. */
  lemma EmitSpansTextCons(frags: seq<string>, c: Counter)
    requires |frags| > 0 && !Blank(frags[0], UnicodeSpace)
    requires var rest := EmitSpans(frags[1..], Counter(c.paragraph, c.segment + 1));
             TextOfList(rest.nodes) == Concat(NonBlankFragments(frags[1..]))
    ensures TextOfList(EmitSpans(frags, c).nodes) == Concat(NonBlankFragments(frags))
  {
    var rest := EmitSpans(frags[1..], Counter(c.paragraph, c.segment + 1));
    var span := CreateSpan(c, frags[0]);
    EmitSpansUnfold(frags, c);
    CreatedSpanText(c, frags[0]);
    TextOfListConcat([span], rest.nodes);
  }

  /** A created span holds exactly its fragment. */
  lemma CreatedSpanText(c: Counter, text: string)
    ensures TextOfList([CreateSpan(c, text)]) == text
  {
    var span := CreateSpan(c, text);
    CreateSpanIsMarker(c, text);
    assert TextOfList([span]) == TextOf(span) + TextOfList([]);
  }

  /** Every character that is not whitespace survives the walk, in order:
      the text moves into spans, and only whitespace-only fragments vanish. */
  lemma {:induction false} WalkNodeKeepsText(n: Node, parentTag: string, c: Counter)
    ensures Visible(TextOfList(WalkNode(n, parentTag, c).nodes), UnicodeSpace) == Visible(TextOf(n), UnicodeSpace)
    decreases n, 1
  {
    if Inert(n, parentTag) {
      WalkInert(n, parentTag, c);
      TextOfSingleton(n);
    } else if n.Text? {
      WalkTextKeepsText(n.data, parentTag, c);
    } else {
      WalkElementKeepsText(n, parentTag, c);
    }
  }

  lemma WalkTextKeepsText(s: string, parentTag: string, c: Counter)
    requires parentTag != "pre"
    ensures Visible(TextOfList(WalkNode(Text(s), parentTag, c).nodes), UnicodeSpace) == Visible(s, UnicodeSpace)
  {
    var frags := Fragments(s);
    WalkText(s, parentTag, c);
    FragmentsPartition(s);
    EmitSpansText(frags, Counter(c.paragraph, c.segment + 1));
    NonBlankKeepsVisible(frags);
  }

  lemma {:induction false} WalkElementKeepsText(n: Node, parentTag: string, c: Counter)
    requires n.Element? && n.tag != "img"
    ensures Visible(TextOfList(WalkNode(n, parentTag, c).nodes), UnicodeSpace) == Visible(TextOf(n), UnicodeSpace)
    decreases n, 0
  {
    var start := Enter(n.tag, c);
    WalkElement(n, parentTag, c);
    WalkListKeepsText(n.children, n.tag, start);
    TextOfSingleton(Element(n.tag, n.attrs, WalkList(n.children, n.tag, start).nodes));
  }

  lemma {:induction false} WalkListKeepsText(ns: seq<Node>, parentTag: string, c: Counter)
    ensures Visible(TextOfList(WalkList(ns, parentTag, c).nodes), UnicodeSpace) == Visible(TextOfList(ns), UnicodeSpace)
    decreases ns
  {
    if |ns| > 0 {
      var h := WalkNode(ns[0], parentTag, c);
      var t := WalkList(ns[1..], parentTag, h.ctr);
      WalkNodeKeepsText(ns[0], parentTag, c);
      WalkListKeepsText(ns[1..], parentTag, h.ctr);
      TextOfListConcat(h.nodes, t.nodes);
      VisibleConcat(TextOfList(h.nodes), TextOfList(t.nodes), UnicodeSpace);
      VisibleConcat(TextOf(ns[0]), TextOfList(ns[1..]), UnicodeSpace);
    }
  }

  // ---------------------------------------------------------------------------
  // Exemptions

  /** Nodes the walk leaves alone: `img` elements, text directly inside
      `pre`, and nodes that are neither text nor element. */
  predicate Inert(n: Node, parentTag: string) {
    IsElement(n, "img") || n.Other? || (n.Text? && parentTag == "pre")
  }

  lemma {:induction false} WalkListConcat(xs: seq<Node>, ys: seq<Node>, parentTag: string, c: Counter)
    ensures var a := WalkList(xs, parentTag, c);
            WalkList(xs + ys, parentTag, c) == Then(a, WalkList(ys, parentTag, a.ctr))
    decreases |xs|
  {
    if |xs| == 0 {
      assert xs + ys == ys;
    } else {
      var zs := xs + ys;
      assert zs[0] == xs[0];
      assert zs[1..] == xs[1..] + ys;
      var h := WalkNode(xs[0], parentTag, c);
      WalkListConcat(xs[1..], ys, parentTag, h.ctr);
      var m := WalkList(xs[1..], parentTag, h.ctr);
      var b := WalkList(ys, parentTag, m.ctr);
      assert WalkList(zs[1..], parentTag, h.ctr) == Then(m, b);
      WalkListUnfold(zs, parentTag, c);
      WalkListUnfold(xs, parentTag, c);
      ThenAssoc(h, m, b);
    }
  }

  lemma WalkListUnfold(ns: seq<Node>, parentTag: string, c: Counter)
    requires |ns| > 0
    ensures var h := WalkNode(ns[0], parentTag, c);
            WalkList(ns, parentTag, c) == Then(h, WalkList(ns[1..], parentTag, h.ctr))
  {
  }

  lemma ThenAssoc(a: Walk, b: Walk, d: Walk)
    ensures Then(a, Then(b, d)) == Then(Then(a, b), d)
  {
    assert a.nodes + (b.nodes + d.nodes) == (a.nodes + b.nodes) + d.nodes;
    assert a.labels + (b.labels + d.labels) == (a.labels + b.labels) + d.labels;
  }

  /** An inert node keeps its place and changes neither the counters nor
      anything the walk does to its siblings: walking the siblings with it is
      walking them without it, with the node put back where it was. */
  lemma InertIsTransparent(xs: seq<Node>, n: Node, ys: seq<Node>, parentTag: string, c: Counter)
    requires Inert(n, parentTag)
    ensures var with := WalkList(xs + [n] + ys, parentTag, c);
            var without := WalkList(xs + ys, parentTag, c);
            var k := |WalkList(xs, parentTag, c).nodes|;
            && k <= |without.nodes|
            && with.nodes == without.nodes[..k] + [n] + without.nodes[k..]
            && with.labels == without.labels
            && with.ctr == without.ctr
  {
    var a := WalkList(xs, parentTag, c);
    var b := WalkList(ys, parentTag, a.ctr);
    WalkListAfterInert(xs, n, parentTag, c);
    WalkListConcat(xs + [n], ys, parentTag, c);
    WalkListConcat(xs, ys, parentTag, c);
    InsertAt(a.nodes, n, b.nodes);
  }

  /** Walking `xs` followed by an inert node ends where walking `xs` ends. */
  lemma WalkListAfterInert(xs: seq<Node>, n: Node, parentTag: string, c: Counter)
    requires Inert(n, parentTag)
    ensures var a := WalkList(xs, parentTag, c);
            WalkList(xs + [n], parentTag, c) == Walk(a.nodes + [n], a.ctr, a.labels)
  {
    var a := WalkList(xs, parentTag, c);
    WalkListConcat(xs, [n], parentTag, c);
    WalkInert(n, parentTag, a.ctr);
    assert a.labels + [] == a.labels;
  }

  lemma InsertAt<T>(x: seq<T>, n: T, y: seq<T>)
    ensures |x| <= |x + y|
    ensures x + [n] + y == (x + y)[..|x|] + [n] + (x + y)[|x|..]
  {
    assert (x + y)[..|x|] == x;
    assert (x + y)[|x|..] == y;
  }

  // ---------------------------------------------------------------------------
  // Only bodies change

  /** Everything outside the bodies is left exactly as it was. */
  lemma {:induction false} SpanBodiesOnlyInBody(n: Node, c: Counter)
    ensures StripBodiesList(SpanBodies(n, c).nodes) == [StripBodies(n)]
    decreases n
  {
    match n
    case Element(tag, attrs, cs) =>
      if tag != "body" {
        SpanBodiesListOnlyInBody(cs, c);
      }
    case _ =>
  }

  lemma {:induction false} SpanBodiesListOnlyInBody(ns: seq<Node>, c: Counter)
    ensures StripBodiesList(SpanBodiesList(ns, c).nodes) == StripBodiesList(ns)
    decreases ns
  {
    if |ns| > 0 {
      var h := SpanBodies(ns[0], c);
      SpanBodiesOnlyInBody(ns[0], c);
      SpanBodiesListOnlyInBody(ns[1..], h.ctr);
      StripBodiesConcat(h.nodes, SpanBodiesList(ns[1..], h.ctr).nodes);
    }
  }

  lemma AddSpansOnlyInBody(d: Document)
    ensures StripBodiesList(AddSpans(d).roots) == StripBodiesList(d.roots)
  {
    SpanBodiesListOnlyInBody(d.roots, Counter(0, 0));
  }

  // ---------------------------------------------------------------------------
  // Running twice

  /** A walk that inserted no span left a tree that the walk no longer
      changes, whatever the counters. */
  lemma {:induction false} WalkNodeStable(n: Node, parentTag: string, c: Counter, c': Counter)
    requires WalkNode(n, parentTag, c).labels == []
    ensures var out := WalkNode(n, parentTag, c).nodes;
            WalkList(out, parentTag, c').nodes == out
    decreases n, 1
  {
    if Inert(n, parentTag) {
      WalkInert(n, parentTag, c);
      WalkInert(n, parentTag, c');
    } else if n.Text? {
      WalkText(n.data, parentTag, c);
      assert WalkNode(n, parentTag, c).nodes == [];
    } else {
      WalkElementStable(n, parentTag, c, c');
    }
  }

  lemma {:induction false} WalkElementStable(n: Node, parentTag: string, c: Counter, c': Counter)
    requires n.Element? && n.tag != "img"
    requires WalkNode(n, parentTag, c).labels == []
    ensures var out := WalkNode(n, parentTag, c).nodes;
            WalkList(out, parentTag, c').nodes == out
    decreases n, 0
  {
    var start := Enter(n.tag, c);
    var inner := WalkList(n.children, n.tag, start).nodes;
    WalkElement(n, parentTag, c);
    WalkListStable(n.children, n.tag, start, Enter(n.tag, c'));
    var e := Element(n.tag, n.attrs, inner);
    WalkElement(e, parentTag, c');
    assert WalkList([e], parentTag, c').nodes == WalkNode(e, parentTag, c').nodes + [];
  }

  lemma {:induction false} WalkListStable(ns: seq<Node>, parentTag: string, c: Counter, c': Counter)
    requires WalkList(ns, parentTag, c).labels == []
    ensures var out := WalkList(ns, parentTag, c).nodes;
            WalkList(out, parentTag, c').nodes == out
    decreases ns
  {
    if |ns| > 0 {
      var h := WalkNode(ns[0], parentTag, c);
      var t := WalkList(ns[1..], parentTag, h.ctr);
      WalkNodeStable(ns[0], parentTag, c, c');
      WalkListConcat(h.nodes, t.nodes, parentTag, c');
      var a := WalkList(h.nodes, parentTag, c');
      WalkListStable(ns[1..], parentTag, h.ctr, a.ctr);
    }
  }

  lemma {:induction false} SpanBodiesStable(n: Node, c: Counter, c': Counter)
    requires SpanBodies(n, c).labels == []
    ensures var out := SpanBodies(n, c).nodes;
            SpanBodiesList(out, c').nodes == out
    decreases n
  {
    var out := SpanBodies(n, c).nodes;
    match n
    case Element(tag, attrs, cs) =>
      if tag == "body" {
        var inner := WalkList(cs, tag, c).nodes;
        WalkListStable(cs, tag, c, c');
        var e := Element(tag, attrs, inner);
        assert SpanBodies(e, c').nodes == [e];
      } else {
        var inner := SpanBodiesList(cs, c).nodes;
        SpanBodiesListStable(cs, c, c');
        var e := Element(tag, attrs, inner);
        assert SpanBodies(e, c').nodes == [e];
      }
      assert SpanBodiesList(out, c').nodes == SpanBodies(out[0], c').nodes + [];
    case _ =>
      assert SpanBodiesList(out, c').nodes == SpanBodies(n, c').nodes + [];
  }

  lemma {:induction false} SpanBodiesListConcat(xs: seq<Node>, ys: seq<Node>, c: Counter)
    ensures var a := SpanBodiesList(xs, c);
            SpanBodiesList(xs + ys, c) == Then(a, SpanBodiesList(ys, a.ctr))
    decreases |xs|
  {
    if |xs| == 0 {
      assert xs + ys == ys;
    } else {
      var zs := xs + ys;
      assert zs[0] == xs[0] && zs[1..] == xs[1..] + ys;
      var h := SpanBodies(xs[0], c);
      SpanBodiesListConcat(xs[1..], ys, h.ctr);
      SpanBodiesListUnfold(zs, c);
      SpanBodiesListUnfold(xs, c);
      var m := SpanBodiesList(xs[1..], h.ctr);
      ThenAssoc(h, m, SpanBodiesList(ys, m.ctr));
    }
  }

  lemma SpanBodiesListUnfold(ns: seq<Node>, c: Counter)
    requires |ns| > 0
    ensures var h := SpanBodies(ns[0], c);
            SpanBodiesList(ns, c) == Then(h, SpanBodiesList(ns[1..], h.ctr))
  {
  }

  lemma {:induction false} SpanBodiesListStable(ns: seq<Node>, c: Counter, c': Counter)
    requires SpanBodiesList(ns, c).labels == []
    ensures var out := SpanBodiesList(ns, c).nodes;
            SpanBodiesList(out, c').nodes == out
    decreases ns
  {
    if |ns| > 0 {
      var h := SpanBodies(ns[0], c);
      var t := SpanBodiesList(ns[1..], h.ctr);
      SpanBodiesStable(ns[0], c, c');
      SpanBodiesListConcat(h.nodes, t.nodes, c');
      var a := SpanBodiesList(h.nodes, c');
      SpanBodiesListStable(ns[1..], h.ctr, a.ctr);
    }
  }

  /** addSpans is idempotent: either it inserted spans, and the guard stops
      the second run, or it inserted none, and the second run finds nothing
      left to change. */
  lemma AddSpansIdempotent(d: Document)
    ensures AddSpans(AddSpans(d)) == AddSpans(d)
  {
    if !AlreadyProcessed(d) {
      var w := AddSpansWalk(d);
      SpanBodiesListIds(d.roots, Counter(0, 0));
      if w.labels == [] {
        SpanBodiesListStable(d.roots, Counter(0, 0), Counter(0, 0));
      }
    }
  }

  // ---------------------------------------------------------------------------
  // Other elements

  lemma CountTagOne(n: Node, t: string)
    ensures CountTagList([n], t) == CountTag(n, t)
  {
    assert CountTagList([n], t) == CountTag(n, t) + CountTagList([], t);
  }

  lemma CreatedSpanCount(c: Counter, text: string, t: string)
    requires t != "span"
    ensures CountTagList([CreateSpan(c, text)], t) == 0
  {
    var span := CreateSpan(c, text);
    CountTagOne(span, t);
    CountTagOne(Text(text), t);
  }

  lemma {:induction false} EmitSpansCount(frags: seq<string>, c: Counter, t: string)
    requires t != "span"
    ensures CountTagList(EmitSpans(frags, c).nodes, t) == 0
    decreases |frags|
  {
    if |frags| > 0 {
      if Blank(frags[0], UnicodeSpace) {
        EmitSpansCount(frags[1..], c, t);
      } else {
        var c' := Counter(c.paragraph, c.segment + 1);
        EmitSpansCount(frags[1..], c', t);
        EmitSpansUnfold(frags, c);
        CreatedSpanCount(c, frags[0], t);
        CountTagListConcat([CreateSpan(c, frags[0])], EmitSpans(frags[1..], c').nodes, t);
      }
    }
  }

  /** The walk only adds spans: every other tag keeps its number of elements. */
  lemma {:induction false} WalkNodeCount(n: Node, parentTag: string, c: Counter, t: string)
    requires t != "span"
    ensures CountTagList(WalkNode(n, parentTag, c).nodes, t) == CountTag(n, t)
    decreases n, 1
  {
    if Inert(n, parentTag) {
      WalkInert(n, parentTag, c);
      CountTagOne(n, t);
    } else if n.Text? {
      WalkText(n.data, parentTag, c);
      EmitSpansCount(Fragments(n.data), Counter(c.paragraph, c.segment + 1), t);
    } else {
      WalkElementCount(n, parentTag, c, t);
    }
  }

  lemma {:induction false} WalkElementCount(n: Node, parentTag: string, c: Counter, t: string)
    requires t != "span" && n.Element? && n.tag != "img"
    ensures CountTagList(WalkNode(n, parentTag, c).nodes, t) == CountTag(n, t)
    decreases n, 0
  {
    var start := Enter(n.tag, c);
    WalkElement(n, parentTag, c);
    WalkListCount(n.children, n.tag, start, t);
    CountTagOne(Element(n.tag, n.attrs, WalkList(n.children, n.tag, start).nodes), t);
  }

  lemma {:induction false} WalkListCount(ns: seq<Node>, parentTag: string, c: Counter, t: string)
    requires t != "span"
    ensures CountTagList(WalkList(ns, parentTag, c).nodes, t) == CountTagList(ns, t)
    decreases ns
  {
    if |ns| > 0 {
      var h := WalkNode(ns[0], parentTag, c);
      WalkListUnfold(ns, parentTag, c);
      WalkNodeCount(ns[0], parentTag, c, t);
      WalkListCount(ns[1..], parentTag, h.ctr, t);
      CountTagListConcat(h.nodes, WalkList(ns[1..], parentTag, h.ctr).nodes, t);
    }
  }

  lemma {:induction false} SpanBodiesCount(n: Node, c: Counter, t: string)
    requires t != "span"
    ensures CountTagList(SpanBodies(n, c).nodes, t) == CountTag(n, t)
    decreases n
  {
    match n
    case Element(tag, attrs, cs) =>
      if tag == "body" {
        WalkNodeCount(n, "", c, t);
      } else {
        SpanBodiesListCount(cs, c, t);
        CountTagOne(Element(tag, attrs, SpanBodiesList(cs, c).nodes), t);
      }
    case _ =>
      CountTagOne(n, t);
  }

  lemma {:induction false} SpanBodiesListCount(ns: seq<Node>, c: Counter, t: string)
    requires t != "span"
    ensures CountTagList(SpanBodiesList(ns, c).nodes, t) == CountTagList(ns, t)
    decreases ns
  {
    if |ns| > 0 {
      var h := SpanBodies(ns[0], c);
      SpanBodiesListUnfold(ns, c);
      SpanBodiesCount(ns[0], c, t);
      SpanBodiesListCount(ns[1..], h.ctr, t);
      CountTagListConcat(h.nodes, SpanBodiesList(ns[1..], h.ctr).nodes, t);
    }
  }

  /** addSpans inserts span elements and nothing else: the number of
      elements of every other tag, `head` among them, is unchanged. */
  lemma AddSpansCount(d: Document, t: string)
    requires t != "span"
    ensures CountTagList(AddSpans(d).roots, t) == CountTagList(d.roots, t)
  {
    SpanBodiesListCount(d.roots, Counter(0, 0), t);
  }
}

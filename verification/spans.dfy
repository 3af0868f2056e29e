/** Sentence spans (kepub/content.go: createSpan, addSpansToNode, addSpans).

    The source walks the tree below `<body>` and mutates it in place, but it
    iterates over a snapshot of each node's children, so every child is
    visited exactly once and the nodes it is replaced by are never visited.
    That is a fold over the children: each child maps to the list of nodes
    that replaces it, the lists are concatenated, and the (paragraph,
    segment) counter pair is threaded from one child to the next. */
module Spans {
  import opened Wrappers
  import opened Strings
  import opened Html
  import opened Sentences

  /** A (paragraph, segment) pair: the state of the two counters, and the
      label of one span. */
  datatype Counter = Counter(paragraph: nat, segment: nat)

  /** Lexicographic order on labels: document order of the spans. */
  predicate Before(a: Counter, b: Counter) {
    a.paragraph < b.paragraph || (a.paragraph == b.paragraph && a.segment < b.segment)
  }

  predicate AtMost(a: Counter, b: Counter) {
    a == b || Before(a, b)
  }

  /** `fmt.Sprintf("kobo.%v.%v", paragraph, segment)` */
  function SpanId(pos: Counter): string {
    "kobo." + NatToString(pos.paragraph) + "." + NatToString(pos.segment)
  }

  /** Reads a span id back into its label. */
  function ParseSpanId(id: string): Option<Counter> {
    if |id| < 5 || id[..5] != "kobo." then None
    else
      var rest := id[5..];
      var dot := IndexOf(rest, ".");
      if dot < 0 then None
      else
        var p := rest[..dot];
        var s := rest[dot + 1..];
        if AllDigits(p) && AllDigits(s) then Some(Counter(ParseDigits(p), ParseDigits(s)))
        else None
  }

  /** The id names its label, so distinct labels give distinct ids. */
  lemma ParseSpanIdRoundTrip(pos: Counter)
    ensures ParseSpanId(SpanId(pos)) == Some(pos)
  {
    var dp := NatToString(pos.paragraph);
    var ds := NatToString(pos.segment);
    var id := SpanId(pos);
    var rest := id[5..];
    assert rest == dp + "." + ds;
    assert OccursAt(rest, ".", |dp|);
    forall k: nat | k < |dp| ensures !OccursAt(rest, ".", k) {
      assert rest[k] == dp[k];
    }
    IndexOfFirst(rest, ".", |dp|);
    assert rest[..|dp|] == dp;
    assert rest[|dp| + 1..] == ds;
    ParseNatToString(pos.paragraph);
    ParseNatToString(pos.segment);
  }

  lemma SpanIdInjective(a: Counter, b: Counter)
    requires SpanId(a) == SpanId(b)
    ensures a == b
  {
    ParseSpanIdRoundTrip(a);
    ParseSpanIdRoundTrip(b);
  }

  // ---------------------------------------------------------------------------
  // Span markers

  /** The value of the element's `id` attribute, "" when it has none. */
  function IdOf(attrs: seq<Attr>): string {
    match GetAttr(attrs, "id")
    case Some(v) => v
    case None => ""
  }

  /** A span whose class attribute contains "koboSpan". */
  predicate IsKoboSpan(n: Node) {
    && n.Element? && n.tag == "span"
    && match GetAttr(n.attrs, "class")
       case Some(v) => Contains(v, "koboSpan")
       case None => false
  }

  /** createSpan: a span element with class koboSpan and id kobo.P.S holding
      one text node. */
  function CreateSpan(pos: Counter, text: string): Node {
    Element("span", [Attr("class", "koboSpan"), Attr("id", SpanId(pos))], [Text(text)])
  }

  /** The span is a marker, its id names its label, and its only content is
      the text it was given. */
  lemma CreateSpanIsMarker(pos: Counter, text: string)
    ensures var n := CreateSpan(pos, text);
            && IsKoboSpan(n) && IdOf(n.attrs) == SpanId(pos) && ParseSpanId(IdOf(n.attrs)) == Some(pos)
            && n.children == [Text(text)] && TextOf(n) == text
  {
    var n := CreateSpan(pos, text);
    SpanAttrs(pos);
    assert Contains("koboSpan", "koboSpan") by {
      assert OccursAt("koboSpan", "koboSpan", 0);
    }
    assert TextOfList([Text(text)]) == text + TextOfList([]);
    ParseSpanIdRoundTrip(pos);
  }

  lemma SpanAttrs(pos: Counter)
    ensures var attrs := CreateSpan(pos, "").attrs;
            GetAttr(attrs, "class") == Some("koboSpan") && GetAttr(attrs, "id") == Some(SpanId(pos))
  {
    var attrs := CreateSpan(pos, "").attrs;
    assert attrs[1..] == [Attr("id", SpanId(pos))];
  }

  /** The ids of the span markers in document order. */
  function KoboSpanIds(n: Node): seq<string>
    decreases n
  {
    match n
    case Element(_, attrs, cs) =>
      (if IsKoboSpan(n) then [IdOf(attrs)] else []) + KoboSpanIdsList(cs)
    case _ => []
  }

  function KoboSpanIdsList(ns: seq<Node>): seq<string>
    decreases ns
  {
    if |ns| == 0 then [] else KoboSpanIds(ns[0]) + KoboSpanIdsList(ns[1..])
  }

  lemma {:induction false} KoboSpanIdsConcat(a: seq<Node>, b: seq<Node>)
    ensures KoboSpanIdsList(a + b) == KoboSpanIdsList(a) + KoboSpanIdsList(b)
    decreases |a|
  {
    if |a| > 0 {
      assert (a + b)[1..] == a[1..] + b;
      KoboSpanIdsConcat(a[1..], b);
    } else {
      assert a + b == b;
    }
  }

  /** The ids of a sequence of labels. */
  function IdsOf(labels: seq<Counter>): (r: seq<string>)
    ensures |r| == |labels|
    ensures forall i :: 0 <= i < |labels| ==> r[i] == SpanId(labels[i])
  {
    if |labels| == 0 then [] else [SpanId(labels[0])] + IdsOf(labels[1..])
  }

  // ---------------------------------------------------------------------------
  // The walk

  /** What visiting a node or a list of siblings yields: the nodes that
      replace it, the counters afterwards, and the labels of the spans
      inserted, in document order. */
  datatype Walk = Walk(nodes: seq<Node>, ctr: Counter, labels: seq<Counter>)

  /** Sequencing two walks over adjacent siblings. */
  function Then(a: Walk, b: Walk): Walk {
    Walk(a.nodes + b.nodes, b.ctr, a.labels + b.labels)
  }

  /** The tags that reset the segment counter and open a new paragraph. */
  predicate IsBlockTag(tag: string) {
    tag == "p" || tag == "ol" || tag == "ul"
  }

  /** The fragments that are not blank by `strings.TrimSpace`, in order. */
  function NonBlankFragments(frags: seq<string>): (r: seq<string>)
    ensures |r| <= |frags|
  {
    if |frags| == 0 then []
    else (if Blank(frags[0], UnicodeSpace) then [] else [frags[0]]) + NonBlankFragments(frags[1..])
  }

  /** The span-insertion loop over one text node's fragments, with the
      counters already advanced past the node: each non-blank fragment gets
      the current label and then advances the segment. */
  function EmitSpans(frags: seq<string>, c: Counter): (w: Walk)
    ensures |w.labels| == |NonBlankFragments(frags)| == |w.nodes|
    ensures w.ctr == Counter(c.paragraph, c.segment + |w.labels|)
  {
    if |frags| == 0 then Walk([], c, [])
    else if Blank(frags[0], UnicodeSpace) then EmitSpans(frags[1..], c)
    else
      var rest := EmitSpans(frags[1..], Counter(c.paragraph, c.segment + 1));
      Walk([CreateSpan(c, frags[0])] + rest.nodes, rest.ctr, [c] + rest.labels)
  }

  /** One span per non-blank fragment, in order, labelled with consecutive
      segments of the current paragraph. */
  lemma {:induction false} EmitSpansShape(frags: seq<string>, c: Counter)
    ensures var w := EmitSpans(frags, c);
            && (forall i :: 0 <= i < |w.labels| ==> w.labels[i] == Counter(c.paragraph, c.segment + i))
            && (forall i :: 0 <= i < |w.nodes| ==>
                  w.nodes[i] == CreateSpan(w.labels[i], NonBlankFragments(frags)[i]))
  {
    EmitSpansLabels(frags, c);
    EmitSpansNodes(frags, c);
  }

  /** The labels `ls` are consecutive segments of `c`'s paragraph, starting at `c`. */
  predicate Consecutive(ls: seq<Counter>, c: Counter) {
    forall i :: 0 <= i < |ls| ==> ls[i] == Counter(c.paragraph, c.segment + i)
  }

  /** The nodes are the spans created for the labels and fragments, pointwise. */
  predicate SpansFor(ns: seq<Node>, ls: seq<Counter>, fs: seq<string>) {
    |ns| == |ls| == |fs| && forall i :: 0 <= i < |ns| ==> ns[i] == CreateSpan(ls[i], fs[i])
  }

  lemma {:induction false} EmitSpansLabels(frags: seq<string>, c: Counter)
    ensures Consecutive(EmitSpans(frags, c).labels, c)
    decreases |frags|
  {
    if |frags| > 0 {
      if Blank(frags[0], UnicodeSpace) {
        EmitSpansLabels(frags[1..], c);
      } else {
        var c' := Counter(c.paragraph, c.segment + 1);
        EmitSpansLabels(frags[1..], c');
        ConsLabels(c, EmitSpans(frags[1..], c').labels);
      }
    }
  }

  lemma ConsLabels(c: Counter, ls: seq<Counter>)
    requires Consecutive(ls, Counter(c.paragraph, c.segment + 1))
    ensures Consecutive([c] + ls, c)
  {
    forall i | 0 < i < |[c] + ls| ensures ([c] + ls)[i] == Counter(c.paragraph, c.segment + i) {
      assert ([c] + ls)[i] == ls[i - 1];
    }
  }

  lemma {:induction false} EmitSpansNodes(frags: seq<string>, c: Counter)
    ensures var w := EmitSpans(frags, c); SpansFor(w.nodes, w.labels, NonBlankFragments(frags))
    decreases |frags|
  {
    if |frags| > 0 {
      var nb := NonBlankFragments(frags[1..]);
      if Blank(frags[0], UnicodeSpace) {
        EmitSpansNodes(frags[1..], c);
        assert NonBlankFragments(frags) == nb;
      } else {
        EmitSpansNodes(frags[1..], Counter(c.paragraph, c.segment + 1));
        EmitSpansNodesCons(frags, c);
      }
    }
  }

  lemma EmitSpansNodesCons(frags: seq<string>, c: Counter)
    requires |frags| > 0 && !Blank(frags[0], UnicodeSpace)
    requires var rest := EmitSpans(frags[1..], Counter(c.paragraph, c.segment + 1));
             SpansFor(rest.nodes, rest.labels, NonBlankFragments(frags[1..]))
    ensures var w := EmitSpans(frags, c); SpansFor(w.nodes, w.labels, NonBlankFragments(frags))
  {
    var rest := EmitSpans(frags[1..], Counter(c.paragraph, c.segment + 1));
    var nb := NonBlankFragments(frags[1..]);
    EmitSpansUnfold(frags, c);
    ConsSpans(CreateSpan(c, frags[0]), rest.nodes, c, rest.labels, frags[0], nb);
  }

  /** One step of the loop over the fragments, for a non-blank first one. */
  lemma EmitSpansUnfold(frags: seq<string>, c: Counter)
    requires |frags| > 0 && !Blank(frags[0], UnicodeSpace)
    ensures var rest := EmitSpans(frags[1..], Counter(c.paragraph, c.segment + 1));
            && EmitSpans(frags, c) == Walk([CreateSpan(c, frags[0])] + rest.nodes, rest.ctr, [c] + rest.labels)
            && NonBlankFragments(frags) == [frags[0]] + NonBlankFragments(frags[1..])
  {
  }

  lemma ConsSpans(x: Node, xs: seq<Node>, l: Counter, ls: seq<Counter>, f: string, fs: seq<string>)
    requires x == CreateSpan(l, f) && SpansFor(xs, ls, fs)
    ensures SpansFor([x] + xs, [l] + ls, [f] + fs)
  {
    forall i | 0 < i < |[x] + xs| ensures ([x] + xs)[i] == CreateSpan(([l] + ls)[i], ([f] + fs)[i]) {
      assert ([x] + xs)[i] == xs[i - 1];
      assert ([l] + ls)[i] == ls[i - 1];
      assert ([f] + fs)[i] == fs[i - 1];
    }
  }

  /** The counter the children of a `tag` element start from: `p`, `ol` and
      `ul` open a new paragraph. */
  function Enter(tag: string, c: Counter): Counter {
    if IsBlockTag(tag) then Counter(c.paragraph + 1, 0) else c
  }

  /** addSpansToNode on one node whose parent has tag `parentTag`. */
  function WalkNode(n: Node, parentTag: string, c: Counter): (w: Walk)
    ensures AtMost(c, w.ctr)
    ensures !n.Text? ==> |w.nodes| == 1
    ensures n.Element? ==> w.nodes[0].Element? && w.nodes[0].tag == n.tag && w.nodes[0].attrs == n.attrs
    decreases n
  {
    match n
    case Text(s) =>
      if parentTag == "pre" then Walk([n], c, [])
      else EmitSpans(Fragments(s), Counter(c.paragraph, c.segment + 1))
    case Other(_) => Walk([n], c, [])
    case Element(tag, attrs, cs) =>
      if tag == "img" then Walk([n], c, [])
      else
        var w := WalkList(cs, tag, Enter(tag, c));
        Walk([Element(tag, attrs, w.nodes)], w.ctr, w.labels)
  }

  /** The loop over the snapshot of a node's children. */
  function WalkList(ns: seq<Node>, parentTag: string, c: Counter): (w: Walk)
    ensures AtMost(c, w.ctr)
    decreases ns
  {
    if |ns| == 0 then Walk([], c, [])
    else
      var h := WalkNode(ns[0], parentTag, c);
      Then(h, WalkList(ns[1..], parentTag, h.ctr))
  }

  /** `doc.Find("body")`: every outermost body element is walked; everything
      outside a body is left as it is. */
  function SpanBodies(n: Node, c: Counter): Walk
    decreases n
  {
    match n
    case Element(tag, attrs, cs) =>
      if tag == "body" then WalkNode(n, "", c)
      else
        var w := SpanBodiesList(cs, c);
        Walk([Element(tag, attrs, w.nodes)], w.ctr, w.labels)
    case _ => Walk([n], c, [])
  }

  function SpanBodiesList(ns: seq<Node>, c: Counter): Walk
    decreases ns
  {
    if |ns| == 0 then Walk([], c, [])
    else
      var h := SpanBodies(ns[0], c);
      Then(h, SpanBodiesList(ns[1..], h.ctr))
  }

  /** The idempotency guard: some span's class already contains "koboSpan". */
  predicate AlreadyProcessed(d: Document) {
    KoboSpanIdsList(d.roots) != []
  }

  /** addSpans: both counters start at 0. */
  function AddSpansWalk(d: Document): Walk {
    SpanBodiesList(d.roots, Counter(0, 0))
  }

  function AddSpans(d: Document): (r: Document)
    ensures AlreadyProcessed(d) ==> r == d
  {
    if AlreadyProcessed(d) then d else Document(AddSpansWalk(d).nodes)
  }
}

/** The Kobo page-layout wrappers (kepub/content.go: addDivs). */
module Divs {
  import opened Html

  const InnerAttrs: seq<Attr> := [Attr("class", "book-inner")]
  const ColumnsAttrs: seq<Attr> := [Attr("class", "book-columns")]

  /** goquery `WrapAllHtml` on the element children of one parent, with an
      empty wrapper `<tag attrs>`: the wrapper takes the place of the first
      element, every element moves into it in order, and the text and other
      nodes stay where they were. Without elements nothing happens. */
  function WrapAll(ns: seq<Node>, tag: string, attrs: seq<Attr>): (r: seq<Node>)
    ensures Elements(ns) == [] ==> r == ns
    ensures |r| <= |ns|
  {
    if |ns| == 0 then []
    else if ns[0].Element? then [Element(tag, attrs, Elements(ns))] + NonElements(ns[1..])
    else [ns[0]] + WrapAll(ns[1..], tag, attrs)
  }

  /** The wrapper is the only element left, it holds all the elements, and
      the remaining nodes are exactly the non-elements, in order. */
  lemma {:induction false} WrapAllShape(ns: seq<Node>, tag: string, attrs: seq<Attr>)
    ensures Elements(ns) == [] ==> WrapAll(ns, tag, attrs) == ns
    ensures Elements(ns) != [] ==>
              Elements(WrapAll(ns, tag, attrs)) == [Element(tag, attrs, Elements(ns))]
    ensures NonElements(WrapAll(ns, tag, attrs)) == NonElements(ns)
    decreases |ns|
  {
    if |ns| > 0 {
      var r := WrapAll(ns, tag, attrs);
      if ns[0].Element? {
        var w := Element(tag, attrs, Elements(ns));
        assert r == [w] + NonElements(ns[1..]);
        ElementsConcat([w], NonElements(ns[1..]));
        NonElementsHaveNoElements(ns[1..]);
        assert [w][1..] == [];
      } else {
        WrapAllShape(ns[1..], tag, attrs);
        assert Elements(ns) == [] + Elements(ns[1..]);
        assert Elements(ns) == Elements(ns[1..]);
        assert NonElements(ns) == [ns[0]] + NonElements(ns[1..]);
        assert r == [ns[0]] + WrapAll(ns[1..], tag, attrs);
        ElementsConcat([ns[0]], WrapAll(ns[1..], tag, attrs));
        assert [ns[0]][1..] == [];
        assert Elements([ns[0]]) == [] + Elements([ns[0]][1..]);
        assert Elements(r) == Elements(WrapAll(ns[1..], tag, attrs));
      }
    }
  }

  lemma {:induction false} NonElementsHaveNoElements(ns: seq<Node>)
    ensures Elements(NonElements(ns)) == []
    ensures NonElements(NonElements(ns)) == NonElements(ns)
    decreases |ns|
  {
    if |ns| > 0 {
      NonElementsHaveNoElements(ns[1..]);
      var head := if ns[0].Element? then [] else [ns[0]];
      ElementsConcat(head, NonElements(ns[1..]));
      if !ns[0].Element? {
        assert [ns[0]][1..] == [];
      }
    }
  }

  /** The wrapper is the position of the first element: the nodes before it
      are untouched, and the non-elements after it follow the wrapper. */
  lemma {:induction false} WrapAllAt(ns: seq<Node>, i: nat, tag: string, attrs: seq<Attr>)
    requires i < |ns| && ns[i].Element? && Elements(ns[..i]) == []
    ensures WrapAll(ns, tag, attrs) == ns[..i] + [Element(tag, attrs, Elements(ns))] + NonElements(ns[i + 1..])
    decreases i
  {
    if i == 0 {
      assert ns[..0] == [];
    } else {
      var tl := ns[1..];
      PrefixShift(ns, i);
      ElementsConcat([ns[0]], tl[..i - 1]);
      ElementsOfOne(ns[0]);
      WrapAllAt(tl, i - 1, tag, attrs);
      SkipNonElement(ns, tag, attrs);
      ConsRegroup(ns[0], tl[..i - 1], Element(tag, attrs, Elements(ns)), NonElements(ns[i + 1..]));
    }
  }

  lemma ConsRegroup<T>(x: T, a: seq<T>, w: T, b: seq<T>)
    ensures [x] + (a + [w] + b) == ([x] + a) + [w] + b
  {
  }

  lemma PrefixShift(ns: seq<Node>, i: nat)
    requires 0 < i < |ns|
    ensures ns[..i] == [ns[0]] + ns[1..][..i - 1]
    ensures ns[1..][i - 1] == ns[i] && ns[1..][i..] == ns[i + 1..]
  {
  }

  lemma ElementsOfOne(n: Node)
    ensures Elements([n]) == (if n.Element? then [n] else [])
  {
    assert [n][1..] == [];
  }

  /** A leading non-element stays in front and does not change the elements. */
  lemma SkipNonElement(ns: seq<Node>, tag: string, attrs: seq<Attr>)
    requires |ns| > 0 && !ns[0].Element?
    ensures Elements(ns) == Elements(ns[1..])
    ensures WrapAll(ns, tag, attrs) == [ns[0]] + WrapAll(ns[1..], tag, attrs)
  {
    assert Elements(ns) == [] + Elements(ns[1..]);
  }

  /** Element counts only see elements, so moving elements keeps them. */
  lemma {:induction false} CountTagElements(ns: seq<Node>, t: string)
    ensures CountTagList(Elements(ns), t) == CountTagList(ns, t)
    decreases |ns|
  {
    if |ns| > 0 {
      CountTagElements(ns[1..], t);
      var head := if ns[0].Element? then [ns[0]] else [];
      CountTagListConcat(head, Elements(ns[1..]), t);
      if ns[0].Element? {
        assert [ns[0]][1..] == [];
      }
    }
  }

  /** Wrapping adds exactly one element, the wrapper, and loses none. */
  lemma {:induction false} WrapAllCount(ns: seq<Node>, tag: string, attrs: seq<Attr>, t: string)
    ensures CountTagList(WrapAll(ns, tag, attrs), t)
            == CountTagList(ns, t) + (if Elements(ns) != [] && tag == t then 1 else 0)
    decreases |ns|
  {
    WrapAllShape(ns, tag, attrs);
    if |ns| > 0 {
      var r := WrapAll(ns, tag, attrs);
      if ns[0].Element? {
        var w := Element(tag, attrs, Elements(ns));
        CountTagListConcat([w], NonElements(ns[1..]), t);
        NonElementsHaveNoElements(ns[1..]);
        CountTagElements(NonElements(ns[1..]), t);
        assert CountTagList([], t) == 0;
        CountTagElements(ns, t);
        assert [w][1..] == [];
      } else {
        WrapAllCount(ns[1..], tag, attrs, t);
        CountTagListConcat([ns[0]], WrapAll(ns[1..], tag, attrs), t);
        assert [ns[0]][1..] == [];
        assert Elements(ns) == Elements(ns[1..]) by {
          assert Elements(ns) == [] + Elements(ns[1..]);
        }
      }
    }
  }

  /** The two wrapping passes over one body's children. */
  function WrapBody(cs: seq<Node>): seq<Node> {
    WrapAll(WrapAll(cs, "div", InnerAttrs), "div", ColumnsAttrs)
  }

  /** The body's elements, in their original order, end up inside a
      book-inner div inside a book-columns div, which is the body's only
      element; its other nodes stay. A body without elements is untouched. */
  lemma WrapBodyShape(cs: seq<Node>)
    ensures Elements(cs) == [] ==> WrapBody(cs) == cs
    ensures Elements(cs) != [] ==>
              Elements(WrapBody(cs)) ==
              [Element("div", ColumnsAttrs, [Element("div", InnerAttrs, Elements(cs))])]
    ensures NonElements(WrapBody(cs)) == NonElements(cs)
  {
    WrapAllShape(cs, "div", InnerAttrs);
    WrapAllShape(WrapAll(cs, "div", InnerAttrs), "div", ColumnsAttrs);
  }

  /** Applies the wrappers in every outermost body. */
  function WrapBodies(n: Node): Node
    decreases n
  {
    match n
    case Element(tag, attrs, cs) =>
      if tag == "body" then Element(tag, attrs, WrapBody(cs))
      else Element(tag, attrs, WrapBodiesList(cs))
    case _ => n
  }

  function WrapBodiesList(ns: seq<Node>): (r: seq<Node>)
    ensures |r| == |ns|
    decreases ns
  {
    if |ns| == 0 then [] else [WrapBodies(ns[0])] + WrapBodiesList(ns[1..])
  }

  /** More divs than paragraphs: divs are probably used as paragraphs. */
  predicate DivsOutnumberParagraphs(d: Document) {
    CountTagList(d.roots, "div") > CountTagList(d.roots, "p")
  }

  /** `out` is `n` with every outermost body wrapped: the body's elements,
      in order, inside book-inner inside book-columns, its other nodes as
      they were, and every node outside the bodies unchanged in kind, tag
      and attributes. */
  predicate WrappedFrom(out: Node, n: Node)
    decreases n
  {
    match n
    case Element(tag, attrs, cs) =>
      && out.Element? && out.tag == tag && out.attrs == attrs
      && if tag == "body" then WrappedChildren(out.children, cs)
         else WrappedFromList(out.children, cs)
    case _ => out == n
  }

  predicate WrappedFromList(outs: seq<Node>, ns: seq<Node>)
    decreases ns
  {
    |outs| == |ns| && forall i :: 0 <= i < |ns| ==> WrappedFrom(outs[i], ns[i])
  }

  /** The children `out` of a wrapped body whose children were `cs`. */
  predicate WrappedChildren(out: seq<Node>, cs: seq<Node>) {
    && NonElements(out) == NonElements(cs)
    && Elements(out) ==
       if Elements(cs) == [] then []
       else [Element("div", ColumnsAttrs, [Element("div", InnerAttrs, Elements(cs))])]
  }

  /** addDivs: with more divs than paragraphs nothing changes; otherwise
      every outermost body is wrapped. Either way nothing outside the bodies
      changes. */
  function AddDivs(d: Document): (r: Document)
    ensures DivsOutnumberParagraphs(d) ==> r == d
    ensures !DivsOutnumberParagraphs(d) ==> WrappedFromList(r.roots, d.roots)
    ensures StripBodiesList(r.roots) == StripBodiesList(d.roots)
  {
    WrapBodiesListOnlyInBody(d.roots);
    WrapBodiesListWrapped(d.roots);
    if DivsOutnumberParagraphs(d) then d else Document(WrapBodiesList(d.roots))
  }

  // ---------------------------------------------------------------------------
  // Properties

  /** Everything outside the bodies is left exactly as it was. */
  lemma {:induction false} WrapBodiesOnlyInBody(n: Node)
    ensures StripBodies(WrapBodies(n)) == StripBodies(n)
    decreases n
  {
    match n
    case Element(tag, attrs, cs) =>
      if tag != "body" {
        WrapBodiesListOnlyInBody(cs);
      }
    case _ =>
  }

  lemma {:induction false} WrapBodiesListOnlyInBody(ns: seq<Node>)
    ensures StripBodiesList(WrapBodiesList(ns)) == StripBodiesList(ns)
    decreases ns
  {
    if |ns| > 0 {
      WrapBodiesOnlyInBody(ns[0]);
      WrapBodiesListOnlyInBody(ns[1..]);
      StripBodiesConcat([WrapBodies(ns[0])], WrapBodiesList(ns[1..]));
      StripBodiesConcat([ns[0]], ns[1..]);
      assert ns == [ns[0]] + ns[1..];
    }
  }

  /** The wrappers go exactly where the selection `body>*` points. */
  lemma {:induction false} WrapBodiesWrapped(n: Node)
    ensures WrappedFrom(WrapBodies(n), n)
    decreases n
  {
    match n
    case Element(tag, attrs, cs) =>
      if tag == "body" {
        WrapBodyShape(cs);
      } else {
        WrapBodiesListWrapped(cs);
      }
    case _ =>
  }

  lemma {:induction false} WrapBodiesListWrapped(ns: seq<Node>)
    ensures WrappedFromList(WrapBodiesList(ns), ns)
    decreases ns
  {
    if |ns| > 0 {
      var r := WrapBodiesList(ns);
      WrapBodiesWrapped(ns[0]);
      WrapBodiesListWrapped(ns[1..]);
      assert r[0] == WrapBodies(ns[0]) && r[1..] == WrapBodiesList(ns[1..]);
      forall i | 0 < i < |ns| ensures WrappedFrom(r[i], ns[i]) {
        assert r[i] == r[1..][i - 1] && ns[i] == ns[1..][i - 1];
      }
    }
  }

  /** No element is lost or created except the wrapper divs. */
  lemma {:induction false} WrapBodiesCount(n: Node, t: string)
    requires t != "div"
    ensures CountTag(WrapBodies(n), t) == CountTag(n, t)
    decreases n
  {
    match n
    case Element(tag, attrs, cs) =>
      if tag == "body" {
        WrapAllCount(cs, "div", InnerAttrs, t);
        WrapAllCount(WrapAll(cs, "div", InnerAttrs), "div", ColumnsAttrs, t);
      } else {
        WrapBodiesListCount(cs, t);
      }
    case _ =>
  }

  lemma {:induction false} WrapBodiesListCount(ns: seq<Node>, t: string)
    requires t != "div"
    ensures CountTagList(WrapBodiesList(ns), t) == CountTagList(ns, t)
    decreases ns
  {
    if |ns| > 0 {
      WrapBodiesCount(ns[0], t);
      WrapBodiesListCount(ns[1..], t);
      assert WrapBodiesList(ns)[1..] == WrapBodiesList(ns[1..]);
    }
  }

  lemma AddDivsCount(d: Document, t: string)
    requires t != "div"
    ensures CountTagList(AddDivs(d).roots, t) == CountTagList(d.roots, t)
  {
    if !DivsOutnumberParagraphs(d) {
      WrapBodiesListCount(d.roots, t);
    }
  }

  /** A subtree without a body is left alone. */
  lemma {:induction false} WrapBodiesNoBody(n: Node)
    requires CountTag(n, "body") == 0
    ensures WrapBodies(n) == n
    decreases n
  {
    match n
    case Element(tag, attrs, cs) =>
      WrapBodiesListNoBody(cs);
    case _ =>
  }

  lemma {:induction false} WrapBodiesListNoBody(ns: seq<Node>)
    requires CountTagList(ns, "body") == 0
    ensures WrapBodiesList(ns) == ns
    decreases ns
  {
    if |ns| > 0 {
      WrapBodiesNoBody(ns[0]);
      WrapBodiesListNoBody(ns[1..]);
    }
  }

  /** On the document shape the HTML parser produces (`<html>` holding a
      head and one body), with no more divs than paragraphs: the head is
      untouched, and the body's elements, in their original order, end up in
      book-inner inside book-columns, the body's only element. */
  lemma AddDivsDocument(htmlAttrs: seq<Attr>, head: Node, bodyAttrs: seq<Attr>, cs: seq<Node>)
    requires CountTag(head, "body") == 0
    requires var d := Document([Element("html", htmlAttrs, [head, Element("body", bodyAttrs, cs)])]);
             !DivsOutnumberParagraphs(d)
    ensures var d := Document([Element("html", htmlAttrs, [head, Element("body", bodyAttrs, cs)])]);
            var r := AddDivs(d).roots;
            && |r| == 1 && r[0].Element? && r[0].tag == "html" && |r[0].children| == 2
            && r[0].children[0] == head
            && var body := r[0].children[1];
            && body.Element? && body.tag == "body" && body.attrs == bodyAttrs
            && NonElements(body.children) == NonElements(cs)
            && (Elements(cs) != [] ==>
                  Elements(body.children) ==
                  [Element("div", ColumnsAttrs, [Element("div", InnerAttrs, Elements(cs))])])
            && (Elements(cs) == [] ==> body.children == cs)
  {
    var body := Element("body", bodyAttrs, cs);
    var html := Element("html", htmlAttrs, [head, body]);
    WrapBodiesNoBody(head);
    WrapBodyShape(cs);
    assert WrapBodiesList([head, body]) == [WrapBodies(head)] + WrapBodiesList([body]);
    assert [head, body][1..] == [body];
    assert WrapBodiesList([body]) == [WrapBodies(body)] + WrapBodiesList([]);
    assert WrapBodiesList([html]) == [WrapBodies(html)] + WrapBodiesList([]);
  }
}

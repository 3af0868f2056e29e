/** The Kobo style sheet (kepub/content.go: addKoboStyles). */
module Styles {
  import opened Wrappers
  import opened Html

  /** "could not append kobo styles" */
  datatype Error = CouldNotAppendKoboStyles

  /** `<style type="text/css">div#book-inner{margin-top: 0;margin-bottom: 0;}</style>` */
  const KoboStyle: Node :=
    Element("style", [Attr("type", "text/css")], [Text("div#book-inner{margin-top: 0;margin-bottom: 0;}")])

  /** `doc.Find("head").First()`: the first head element in document order. */
  function FirstHead(n: Node): Option<Node>
    decreases n
  {
    match n
    case Element(tag, _, cs) => if tag == "head" then Some(n) else FirstHeadList(cs)
    case _ => None
  }

  function FirstHeadList(ns: seq<Node>): Option<Node>
    decreases ns
  {
    if |ns| == 0 then None
    else match FirstHead(ns[0])
      case Some(h) => Some(h)
      case None => FirstHeadList(ns[1..])
  }

  /** Appends the style to the first head below `n`, if there is one. */
  function AppendToFirstHead(n: Node): Option<Node>
    decreases n
  {
    match n
    case Element(tag, attrs, cs) =>
      if tag == "head" then Some(Element(tag, attrs, cs + [KoboStyle]))
      else (match AppendToFirstHeadList(cs)
            case Some(cs') => Some(Element(tag, attrs, cs'))
            case None => None)
    case _ => None
  }

  function AppendToFirstHeadList(ns: seq<Node>): Option<seq<Node>>
    decreases ns
  {
    if |ns| == 0 then None
    else match AppendToFirstHead(ns[0])
      case Some(n') => Some([n'] + ns[1..])
      case None =>
        (match AppendToFirstHeadList(ns[1..])
         case Some(rest) => Some([ns[0]] + rest)
         case None => None)
  }

  /** addKoboStyles: the style goes into the first head; without a head the
      selection the append returns is empty and the operation fails. */
  function AddKoboStyles(d: Document): (r: Result<Document, Error>)
    ensures r.Success? <==> CountTagList(d.roots, "head") > 0
    ensures r.Success? ==> CountTagList(r.value.roots, "style") == CountTagList(d.roots, "style") + 1
  {
    AppendToFirstHeadListSpec(d.roots, "style");
    match AppendToFirstHeadList(d.roots)
    case Some(roots) => Success(Document(roots))
    case None => Failure(CouldNotAppendKoboStyles)
  }

  // ---------------------------------------------------------------------------
  // Properties

  /** The append succeeds exactly when there is a head, adds one style
      element and nothing else, and the first head of the result is the
      first head of the input with the style as its last child. */
  lemma {:induction false} AppendToFirstHeadSpec(n: Node, t: string)
    ensures AppendToFirstHead(n).Some? <==> CountTag(n, "head") > 0
    ensures FirstHead(n).Some? <==> CountTag(n, "head") > 0
    ensures AppendToFirstHead(n).Some? ==>
              CountTag(AppendToFirstHead(n).value, t) == CountTag(n, t) + (if t == "style" then 1 else 0)
    ensures AppendToFirstHead(n).Some? ==>
              var h := FirstHead(n).value;
              h.Element? && FirstHead(AppendToFirstHead(n).value) == Some(Element(h.tag, h.attrs, h.children + [KoboStyle]))
    decreases n
  {
    match n
    case Element(tag, attrs, cs) =>
      AppendToFirstHeadListSpec(cs, t);
      if tag == "head" {
        CountTagListConcat(cs, [KoboStyle], t);
        assert CountTagList([KoboStyle], t) == CountTag(KoboStyle, t) + CountTagList([], t);
        assert CountTagList([Text("div#book-inner{margin-top: 0;margin-bottom: 0;}")], t) == 0;
      }
    case _ =>
  }

  lemma {:induction false} AppendToFirstHeadListSpec(ns: seq<Node>, t: string)
    ensures AppendToFirstHeadList(ns).Some? <==> CountTagList(ns, "head") > 0
    ensures FirstHeadList(ns).Some? <==> CountTagList(ns, "head") > 0
    ensures AppendToFirstHeadList(ns).Some? ==>
              CountTagList(AppendToFirstHeadList(ns).value, t)
              == CountTagList(ns, t) + (if t == "style" then 1 else 0)
    ensures AppendToFirstHeadList(ns).Some? ==>
              var h := FirstHeadList(ns).value;
              h.Element? && FirstHeadList(AppendToFirstHeadList(ns).value) == Some(Element(h.tag, h.attrs, h.children + [KoboStyle]))
    decreases ns
  {
    if |ns| > 0 {
      AppendToFirstHeadSpec(ns[0], t);
      AppendToFirstHeadListSpec(ns[1..], t);
      match AppendToFirstHead(ns[0])
      case Some(n') =>
        var r := [n'] + ns[1..];
        assert r[0] == n' && r[1..] == ns[1..];
      case None =>
        match AppendToFirstHeadList(ns[1..])
        case Some(rest) =>
          var r := [ns[0]] + rest;
          assert r[0] == ns[0] && r[1..] == rest;
        case None =>
    }
  }

  /** The style lands in the first head of the document. */
  lemma AddKoboStylesFirstHead(d: Document)
    requires AddKoboStyles(d).Success?
    ensures var h := FirstHeadList(d.roots);
            && h.Some? && h.value.Element?
            && FirstHeadList(AddKoboStyles(d).value.roots)
               == Some(Element(h.value.tag, h.value.attrs, h.value.children + [KoboStyle]))
  {
    AppendToFirstHeadListSpec(d.roots, "style");
  }

  /** The head count stays, so the style step succeeds again on its own output. */
  lemma AddKoboStylesKeepsHeads(d: Document)
    requires AddKoboStyles(d).Success?
    ensures CountTagList(AddKoboStyles(d).value.roots, "head") == CountTagList(d.roots, "head")
    ensures AddKoboStyles(AddKoboStyles(d).value).Success?
  {
    AppendToFirstHeadListSpec(d.roots, "head");
  }
}

/** The parsed HTML document the content rewriter works on: the node kinds of
    golang.org/x/net/html that matter here, as an immutable tree. */
module Html {
  import opened Wrappers
  import opened Strings

  /** One attribute `key="val"`; an element keeps its attributes in order. */
  datatype Attr = Attr(key: string, val: string)

  datatype Node =
    | Element(tag: string, attrs: seq<Attr>, children: seq<Node>)
    | Text(data: string)
      /** A comment, doctype or any other node that is neither element nor text. */
    | Other(data: string)

  /** A document: the children of the parser's document node, in order. */
  datatype Document = Document(roots: seq<Node>)

  predicate IsElement(n: Node, tag: string) {
    n.Element? && n.tag == tag
  }

  // ---------------------------------------------------------------------------
  // Attributes

  /** The value of the first attribute named `key` (goquery `Attr`). */
  function GetAttr(attrs: seq<Attr>, key: string): (r: Option<string>)
    ensures r.Some? <==> exists i :: 0 <= i < |attrs| && attrs[i].key == key
    ensures r.Some? ==> exists i :: 0 <= i < |attrs| && attrs[i] == Attr(key, r.value)
    ensures forall i :: 0 <= i < |attrs| && attrs[i].key == key && (forall k :: 0 <= k < i ==> attrs[k].key != key)
              ==> r == Some(attrs[i].val)
  {
    if |attrs| == 0 then None
    else if attrs[0].key == key then Some(attrs[0].val)
    else
      var r := GetAttr(attrs[1..], key);
      assert forall i :: 0 < i < |attrs| ==> attrs[i] == attrs[1..][i - 1];
      r
  }

  /** Some attribute named `key` has value `val` (CSS `[key="val"]`). */
  predicate HasAttrValue(attrs: seq<Attr>, key: string, val: string) {
    Attr(key, val) in attrs
  }

  /** Number of attributes named `key`. */
  function KeyCount(attrs: seq<Attr>, key: string): nat {
    if |attrs| == 0 then 0
    else (if attrs[0].key == key then 1 else 0) + KeyCount(attrs[1..], key)
  }

  /** goquery `SetAttr`: overwrite the first attribute named `key`, or append
      one when there is none. */
  function SetAttr(attrs: seq<Attr>, key: string, val: string): (r: seq<Attr>)
    ensures GetAttr(r, key) == Some(val)
    ensures forall k :: k != key ==> GetAttr(r, k) == GetAttr(attrs, k)
    ensures KeyCount(r, key) == if GetAttr(attrs, key).Some? then KeyCount(attrs, key) else 1
    ensures forall k :: k != key ==> KeyCount(r, k) == KeyCount(attrs, k)
  {
    if |attrs| == 0 then [Attr(key, val)]
    else if attrs[0].key == key then [Attr(key, val)] + attrs[1..]
    else [attrs[0]] + SetAttr(attrs[1..], key, val)
  }

  // ---------------------------------------------------------------------------
  // Text content and counting

  /** goquery `Text`: the data of every text node below, in document order. */
  function TextOf(n: Node): string
    decreases n
  {
    match n
    case Element(_, _, cs) => TextOfList(cs)
    case Text(s) => s
    case Other(_) => ""
  }

  function TextOfList(ns: seq<Node>): string
    decreases ns
  {
    if |ns| == 0 then "" else TextOf(ns[0]) + TextOfList(ns[1..])
  }

  lemma {:induction false} TextOfListConcat(a: seq<Node>, b: seq<Node>)
    ensures TextOfList(a + b) == TextOfList(a) + TextOfList(b)
    decreases |a|
  {
    if |a| > 0 {
      assert (a + b)[1..] == a[1..] + b;
      TextOfListConcat(a[1..], b);
    } else {
      assert a + b == b;
    }
  }

  lemma TextOfSingleton(n: Node)
    ensures TextOfList([n]) == TextOf(n)
  {
    assert [n][1..] == [];
  }

  /** Number of elements with this tag anywhere in the subtree (CSS type selector). */
  function CountTag(n: Node, tag: string): nat
    decreases n
  {
    match n
    case Element(t, _, cs) => (if t == tag then 1 else 0) + CountTagList(cs, tag)
    case _ => 0
  }

  function CountTagList(ns: seq<Node>, tag: string): nat
    decreases ns
  {
    if |ns| == 0 then 0 else CountTag(ns[0], tag) + CountTagList(ns[1..], tag)
  }

  lemma {:induction false} CountTagListConcat(a: seq<Node>, b: seq<Node>, tag: string)
    ensures CountTagList(a + b, tag) == CountTagList(a, tag) + CountTagList(b, tag)
    decreases |a|
  {
    if |a| > 0 {
      assert (a + b)[1..] == a[1..] + b;
      CountTagListConcat(a[1..], b, tag);
    } else {
      assert a + b == b;
    }
  }

  /** The element nodes among `ns`, in order (the children selected by `body>*`). */
  function Elements(ns: seq<Node>): (r: seq<Node>)
    ensures forall i :: 0 <= i < |r| ==> r[i].Element?
    ensures |r| <= |ns|
  {
    if |ns| == 0 then []
    else (if ns[0].Element? then [ns[0]] else []) + Elements(ns[1..])
  }

  /** The text and other nodes among `ns`, in order. */
  function NonElements(ns: seq<Node>): (r: seq<Node>)
    ensures forall i :: 0 <= i < |r| ==> !r[i].Element?
    ensures |r| <= |ns|
  {
    if |ns| == 0 then []
    else (if ns[0].Element? then [] else [ns[0]]) + NonElements(ns[1..])
  }

  lemma {:induction false} ElementsConcat(a: seq<Node>, b: seq<Node>)
    ensures Elements(a + b) == Elements(a) + Elements(b)
    ensures NonElements(a + b) == NonElements(a) + NonElements(b)
    decreases |a|
  {
    if |a| > 0 {
      assert (a + b)[1..] == a[1..] + b;
      ElementsConcat(a[1..], b);
    } else {
      assert a + b == b;
    }
  }

  /** There are no elements exactly when no node is an element. */
  lemma {:induction false} ElementsEmptyIff(ns: seq<Node>)
    ensures Elements(ns) == [] <==> forall i :: 0 <= i < |ns| ==> !ns[i].Element?
    decreases |ns|
  {
    if |ns| > 0 {
      ElementsEmptyIff(ns[1..]);
      assert forall i :: 0 < i < |ns| ==> ns[i] == ns[1..][i - 1];
    }
  }

  // ---------------------------------------------------------------------------
  // Bodies

  /** The tree with the contents of every outermost body cut away. */
  function StripBodies(n: Node): Node
    decreases n
  {
    match n
    case Element(tag, attrs, cs) =>
      if tag == "body" then Element(tag, attrs, []) else Element(tag, attrs, StripBodiesList(cs))
    case _ => n
  }

  function StripBodiesList(ns: seq<Node>): (r: seq<Node>)
    ensures |r| == |ns|
    decreases ns
  {
    if |ns| == 0 then [] else [StripBodies(ns[0])] + StripBodiesList(ns[1..])
  }

  lemma {:induction false} StripBodiesConcat(a: seq<Node>, b: seq<Node>)
    ensures StripBodiesList(a + b) == StripBodiesList(a) + StripBodiesList(b)
    decreases |a|
  {
    if |a| > 0 {
      assert (a + b)[1..] == a[1..] + b;
      StripBodiesConcat(a[1..], b);
    } else {
      assert a + b == b;
    }
  }
}

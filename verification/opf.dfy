/** The package document clean-up (kepub/content.go: processOPF), over the
    element tree of github.com/beevik/etree.

    etree keeps the namespace prefix of every element and attribute as
    written. Its paths treat an unprefixed tag or attribute name as matching
    in any namespace, while `CreateAttr` with an unprefixed key only finds
    an attribute that has no prefix either. */
module Opf {
  import opened Wrappers
  import opened Strings

  /** An attribute `space:key="val"`; `space` is "" when there is no prefix. */
  datatype XAttr = XAttr(space: string, key: string, val: string)

  datatype XNode =
    | XElement(space: string, tag: string, attrs: seq<XAttr>, children: seq<XNode>)
      /** Character data, comments, processing instructions and directives. */
    | XData(data: string)

  /** The children of the etree document. */
  datatype OpfDocument = OpfDocument(roots: seq<XNode>)

  // ---------------------------------------------------------------------------
  // Attributes

  /** The path filter `[@key='val']`: some attribute named `key`, in any
      namespace, has that value. */
  predicate HasXAttr(attrs: seq<XAttr>, key: string, val: string) {
    exists i :: 0 <= i < |attrs| && attrs[i].key == key && attrs[i].val == val
  }

  /** `SelectAttrValue(key, dflt)`: the value of the first attribute named
      `key` in any namespace, or `dflt`. */
  function SelectAttrValue(attrs: seq<XAttr>, key: string, dflt: string): (r: string)
    ensures (forall i :: 0 <= i < |attrs| ==> attrs[i].key != key) ==> r == dflt
    ensures (exists i :: 0 <= i < |attrs| && attrs[i].key == key) ==> HasXAttr(attrs, key, r)
    ensures forall i :: 0 <= i < |attrs| && attrs[i].key == key && (forall k :: 0 <= k < i ==> attrs[k].key != key)
              ==> r == attrs[i].val
  {
    if |attrs| == 0 then dflt
    else if attrs[0].key == key then attrs[0].val
    else
      var r := SelectAttrValue(attrs[1..], key, dflt);
      assert forall i :: 0 < i < |attrs| ==> attrs[i] == attrs[1..][i - 1];
      r
  }

  /** The value of the first attribute with exactly this prefix and key. */
  function AttrValue(attrs: seq<XAttr>, space: string, key: string): Option<string> {
    if |attrs| == 0 then None
    else if attrs[0].space == space && attrs[0].key == key then Some(attrs[0].val)
    else AttrValue(attrs[1..], space, key)
  }

  /** `CreateAttr(key, val)` for an unprefixed key: overwrite the first
      attribute without prefix named `key`, or append one. */
  function CreateAttr(attrs: seq<XAttr>, key: string, val: string): (r: seq<XAttr>)
    ensures AttrValue(r, "", key) == Some(val)
    ensures forall s, k :: (s, k) != ("", key) ==> AttrValue(r, s, k) == AttrValue(attrs, s, k)
    ensures |r| == if AttrValue(attrs, "", key).Some? then |attrs| else |attrs| + 1
  {
    if |attrs| == 0 then [XAttr("", key, val)]
    else if attrs[0].space == "" && attrs[0].key == key then [XAttr("", key, val)] + attrs[1..]
    else [attrs[0]] + CreateAttr(attrs[1..], key, val)
  }

  /** Only the attribute being created changes, so path filters on other
      keys see the same attributes. */
  lemma {:induction false} CreateAttrKeepsOthers(attrs: seq<XAttr>, key: string, val: string, k: string, v: string)
    requires k != key
    ensures HasXAttr(CreateAttr(attrs, key, val), k, v) <==> HasXAttr(attrs, k, v)
    decreases |attrs|
  {
    var r := CreateAttr(attrs, key, val);
    if |attrs| > 0 {
      if attrs[0].space == "" && attrs[0].key == key {
        assert forall i :: 0 < i < |attrs| ==> r[i] == attrs[i];
      } else {
        CreateAttrKeepsOthers(attrs[1..], key, val, k, v);
        assert forall i :: 0 < i < |attrs| ==> attrs[i] == attrs[1..][i - 1];
        assert forall i :: 0 < i < |r| ==> r[i] == r[1..][i - 1];
      }
    }
  }

  /** Creating the same attribute twice is creating it once. */
  lemma {:induction false} CreateAttrIdempotent(attrs: seq<XAttr>, key: string, val: string)
    ensures CreateAttr(CreateAttr(attrs, key, val), key, val) == CreateAttr(attrs, key, val)
    decreases |attrs|
  {
    if |attrs| > 0 && !(attrs[0].space == "" && attrs[0].key == key) {
      CreateAttrIdempotent(attrs[1..], key, val);
      var r := CreateAttr(attrs, key, val);
      assert r[0] == attrs[0] && r[1..] == CreateAttr(attrs[1..], key, val);
    }
  }

  // ---------------------------------------------------------------------------
  // The cover image

  /** `//meta[@name='cover']` */
  predicate IsCoverMeta(n: XNode) {
    n.XElement? && n.tag == "meta" && HasXAttr(n.attrs, "name", "cover")
  }

  /** The id the cover meta names, "cover" when its content is missing or empty. */
  function CoverId(attrs: seq<XAttr>): (id: string)
    ensures id != ""
  {
    var v := SelectAttrValue(attrs, "content", "");
    if v == "" then "cover" else v
  }

  /** The cover ids of the cover metas, in document order. */
  function CoverIds(n: XNode): seq<string>
    decreases n
  {
    match n
    case XElement(_, _, attrs, cs) => (if IsCoverMeta(n) then [CoverId(attrs)] else []) + CoverIdsList(cs)
    case XData(_) => []
  }

  function CoverIdsList(ns: seq<XNode>): seq<string>
    decreases ns
  {
    if |ns| == 0 then [] else CoverIds(ns[0]) + CoverIdsList(ns[1..])
  }

  /** The element's attributes after `CreateAttr("properties", "cover-image")`. */
  function MarkAttrs(attrs: seq<XAttr>): seq<XAttr> {
    CreateAttr(attrs, "properties", "cover-image")
  }

  /** One pass of the inner loop: every element whose id is `id` (in any
      namespace, `//[@id='...']`) gets properties="cover-image". */
  function MarkCover(n: XNode, id: string): XNode
    decreases n
  {
    match n
    case XElement(space, tag, attrs, cs) =>
      XElement(space, tag, if HasXAttr(attrs, "id", id) then MarkAttrs(attrs) else attrs, MarkCoverList(cs, id))
    case XData(_) => n
  }

  function MarkCoverList(ns: seq<XNode>, id: string): (r: seq<XNode>)
    ensures |r| == |ns|
    decreases ns
  {
    if |ns| == 0 then [] else [MarkCover(ns[0], id)] + MarkCoverList(ns[1..], id)
  }

  /** The outer loop: one pass per cover meta, in document order. */
  function MarkCovers(ns: seq<XNode>, ids: seq<string>): (r: seq<XNode>)
    ensures |r| == |ns|
    decreases |ids|
  {
    if |ids| == 0 then ns else MarkCovers(MarkCoverList(ns, ids[0]), ids[1..])
  }

  /** The element's id is one of `ids`. */
  predicate IdIn(attrs: seq<XAttr>, ids: seq<string>) {
    exists j :: 0 <= j < |ids| && HasXAttr(attrs, "id", ids[j])
  }

  /** Reference reading: a single pass that marks every element whose id is
      any of the cover ids. */
  function MarkAny(n: XNode, ids: seq<string>): XNode
    decreases n
  {
    match n
    case XElement(space, tag, attrs, cs) =>
      XElement(space, tag, if IdIn(attrs, ids) then MarkAttrs(attrs) else attrs, MarkAnyList(cs, ids))
    case XData(_) => n
  }

  function MarkAnyList(ns: seq<XNode>, ids: seq<string>): (r: seq<XNode>)
    ensures |r| == |ns|
    decreases ns
  {
    if |ns| == 0 then [] else [MarkAny(ns[0], ids)] + MarkAnyList(ns[1..], ids)
  }

  /** Every element whose id is one of `ids` has properties="cover-image". */
  predicate CoverMarked(n: XNode, ids: seq<string>)
    decreases n
  {
    match n
    case XElement(_, _, attrs, cs) =>
      (IdIn(attrs, ids) ==> AttrValue(attrs, "", "properties") == Some("cover-image"))
      && CoverMarkedList(cs, ids)
    case XData(_) => true
  }

  predicate CoverMarkedList(ns: seq<XNode>, ids: seq<string>)
    decreases ns
  {
    |ns| == 0 || (CoverMarked(ns[0], ids) && CoverMarkedList(ns[1..], ids))
  }

  /** One pass for `id` followed by the single pass for `ids` is the single
      pass for `[id] + ids`. */
  lemma {:induction false} MarkCoverThenAny(n: XNode, id: string, ids: seq<string>)
    ensures MarkAny(MarkCover(n, id), ids) == MarkAny(n, [id] + ids)
    decreases n
  {
    match n
    case XElement(space, tag, attrs, cs) =>
      MarkCoverThenAnyList(cs, id, ids);
      var all := [id] + ids;
      var here := HasXAttr(attrs, "id", id);
      var a1 := if here then MarkAttrs(attrs) else attrs;
      assert IdIn(a1, ids) <==> IdIn(attrs, ids) by {
        forall j | 0 <= j < |ids| ensures HasXAttr(a1, "id", ids[j]) <==> HasXAttr(attrs, "id", ids[j]) {
          CreateAttrKeepsOthers(attrs, "properties", "cover-image", "id", ids[j]);
        }
      }
      assert IdIn(attrs, all) <==> here || IdIn(attrs, ids) by {
        assert all[0] == id;
        assert forall j :: 0 < j < |all| ==> all[j] == ids[j - 1];
        if IdIn(attrs, ids) {
          var j :| 0 <= j < |ids| && HasXAttr(attrs, "id", ids[j]);
          assert all[j + 1] == ids[j];
        }
      }
      if here && IdIn(a1, ids) {
        CreateAttrIdempotent(attrs, "properties", "cover-image");
      }
    case XData(_) =>
  }

  lemma {:induction false} MarkCoverThenAnyList(ns: seq<XNode>, id: string, ids: seq<string>)
    ensures MarkAnyList(MarkCoverList(ns, id), ids) == MarkAnyList(ns, [id] + ids)
    decreases ns
  {
    if |ns| > 0 {
      MarkCoverThenAny(ns[0], id, ids);
      MarkCoverThenAnyList(ns[1..], id, ids);
      var m := MarkCoverList(ns, id);
      assert m[0] == MarkCover(ns[0], id) && m[1..] == MarkCoverList(ns[1..], id);
    }
  }

  lemma {:induction false} MarkAnyNone(n: XNode)
    ensures MarkAny(n, []) == n
    decreases n
  {
    match n
    case XElement(_, _, _, cs) => MarkAnyListNone(cs);
    case XData(_) =>
  }

  lemma {:induction false} MarkAnyListNone(ns: seq<XNode>)
    ensures MarkAnyList(ns, []) == ns
    decreases ns
  {
    if |ns| > 0 {
      MarkAnyNone(ns[0]);
      MarkAnyListNone(ns[1..]);
      assert ns == [ns[0]] + ns[1..];
    }
  }

  /** The loop over the cover metas marks exactly what the single pass
      marks: the order of the metas, and a cover id named twice, make no
      difference. */
  lemma {:induction false} MarkCoversIsMarkAny(ns: seq<XNode>, ids: seq<string>)
    ensures MarkCovers(ns, ids) == MarkAnyList(ns, ids)
    decreases |ids|
  {
    if |ids| == 0 {
      MarkAnyListNone(ns);
    } else {
      MarkCoversIsMarkAny(MarkCoverList(ns, ids[0]), ids[1..]);
      MarkCoverThenAnyList(ns, ids[0], ids[1..]);
      assert [ids[0]] + ids[1..] == ids;
    }
  }

  lemma {:induction false} MarkAnySound(n: XNode, ids: seq<string>)
    ensures CoverMarked(MarkAny(n, ids), ids)
    decreases n
  {
    match n
    case XElement(_, _, attrs, cs) =>
      MarkAnyListSound(cs, ids);
      if !IdIn(attrs, ids) {
        assert MarkAny(n, ids).attrs == attrs;
      }
    case XData(_) =>
  }

  lemma {:induction false} MarkAnyListSound(ns: seq<XNode>, ids: seq<string>)
    ensures CoverMarkedList(MarkAnyList(ns, ids), ids)
    decreases ns
  {
    if |ns| > 0 {
      MarkAnySound(ns[0], ids);
      MarkAnyListSound(ns[1..], ids);
      var m := MarkAnyList(ns, ids);
      assert m[0] == MarkAny(ns[0], ids) && m[1..] == MarkAnyList(ns[1..], ids);
    }
  }

  // ---------------------------------------------------------------------------
  // Removals

  /** The two kinds of calibre metadata that are dropped. */
  datatype XRule =
    | TimestampMeta   // //meta[@name='calibre:timestamp']
    | BkpContributor  // //dc:contributor[@role='bkp'], the book producer

  predicate XMatches(r: XRule, n: XNode) {
    match n
    case XElement(space, tag, attrs, _) =>
      (match r
       case TimestampMeta => tag == "meta" && HasXAttr(attrs, "name", "calibre:timestamp")
       case BkpContributor => space == "dc" && tag == "contributor" && HasXAttr(attrs, "role", "bkp"))
    case XData(_) => false
  }

  /** `e.Parent().RemoveChild(e)` for every match, all found before any goes. */
  function XRemove(r: XRule, n: XNode): XNode
    decreases n
  {
    match n
    case XElement(space, tag, attrs, cs) => XElement(space, tag, attrs, XRemoveList(r, cs))
    case XData(_) => n
  }

  function XRemoveList(r: XRule, ns: seq<XNode>): (out: seq<XNode>)
    ensures |out| <= |ns|
    decreases ns
  {
    if |ns| == 0 then []
    else (if XMatches(r, ns[0]) then [] else [XRemove(r, ns[0])]) + XRemoveList(r, ns[1..])
  }

  predicate XNoneMatch(r: XRule, n: XNode)
    decreases n
  {
    match n
    case XElement(_, _, _, cs) => !XMatches(r, n) && XNoneMatchList(r, cs)
    case XData(_) => true
  }

  predicate XNoneMatchList(r: XRule, ns: seq<XNode>)
    decreases ns
  {
    |ns| == 0 || (XNoneMatch(r, ns[0]) && XNoneMatchList(r, ns[1..]))
  }

  /** Removing keeps every property that each surviving element has on its
      own: no match of `r` is left, nothing that did not match `r'` comes
      to match it, and cover marks stay. */
  lemma {:induction false} XRemoveSound(r: XRule, r': XRule, ids: seq<string>, n: XNode)
    requires !XMatches(r, n)
    ensures XNoneMatch(r, XRemove(r, n))
    ensures XNoneMatch(r', n) ==> XNoneMatch(r', XRemove(r, n))
    ensures CoverMarked(n, ids) ==> CoverMarked(XRemove(r, n), ids)
    decreases n
  {
    match n
    case XElement(_, _, _, cs) => XRemoveListSound(r, r', ids, cs);
    case XData(_) =>
  }

  lemma {:induction false} XRemoveListSound(r: XRule, r': XRule, ids: seq<string>, ns: seq<XNode>)
    ensures XNoneMatchList(r, XRemoveList(r, ns))
    ensures XNoneMatchList(r', ns) ==> XNoneMatchList(r', XRemoveList(r, ns))
    ensures CoverMarkedList(ns, ids) ==> CoverMarkedList(XRemoveList(r, ns), ids)
    decreases ns
  {
    if |ns| > 0 {
      XRemoveListSound(r, r', ids, ns[1..]);
      var rest := XRemoveList(r, ns[1..]);
      if XMatches(r, ns[0]) {
        assert XRemoveList(r, ns) == rest;
      } else {
        XRemoveSound(r, r', ids, ns[0]);
        var p := XRemove(r, ns[0]);
        assert ([p] + rest)[0] == p && ([p] + rest)[1..] == rest;
      }
    }
  }

  /** Number of elements in the subtree that do not match `r`. */
  function KeptCount(r: XRule, n: XNode): nat
    decreases n
  {
    match n
    case XElement(_, _, _, cs) => (if XMatches(r, n) then 0 else 1) + KeptCountList(r, cs)
    case XData(_) => 0
  }

  function KeptCountList(r: XRule, ns: seq<XNode>): nat
    decreases ns
  {
    if |ns| == 0 then 0 else KeptCount(r, ns[0]) + KeptCountList(r, ns[1..])
  }

  /** Every match of `r` is a leaf element, as the metadata entries are. */
  predicate MatchesAreLeaves(r: XRule, n: XNode)
    decreases n
  {
    match n
    case XElement(_, _, _, cs) =>
      (XMatches(r, n) ==> forall i :: 0 <= i < |cs| ==> cs[i].XData?) && MatchesAreLeavesList(r, cs)
    case XData(_) => true
  }

  predicate MatchesAreLeavesList(r: XRule, ns: seq<XNode>)
    decreases ns
  {
    |ns| == 0 || (MatchesAreLeaves(r, ns[0]) && MatchesAreLeavesList(r, ns[1..]))
  }

  lemma {:induction false} DataOnlyKeepsNothing(r: XRule, ns: seq<XNode>)
    requires forall i :: 0 <= i < |ns| ==> ns[i].XData?
    ensures KeptCountList(r, ns) == 0
    decreases ns
  {
    if |ns| > 0 {
      DataOnlyKeepsNothing(r, ns[1..]);
    }
  }

  /** Nothing else is removed: when the matches are leaves, every element
      that does not match survives. */
  lemma {:induction false} XRemoveKeepsOthers(r: XRule, n: XNode)
    requires !XMatches(r, n) && MatchesAreLeaves(r, n)
    ensures KeptCount(r, XRemove(r, n)) == KeptCount(r, n)
    decreases n
  {
    match n
    case XElement(_, _, _, cs) => XRemoveListKeepsOthers(r, cs);
    case XData(_) =>
  }

  lemma {:induction false} XRemoveListKeepsOthers(r: XRule, ns: seq<XNode>)
    requires MatchesAreLeavesList(r, ns)
    ensures KeptCountList(r, XRemoveList(r, ns)) == KeptCountList(r, ns)
    decreases ns
  {
    if |ns| > 0 {
      XRemoveListKeepsOthers(r, ns[1..]);
      var rest := XRemoveList(r, ns[1..]);
      if XMatches(r, ns[0]) {
        DataOnlyKeepsNothing(r, ns[0].children);
        assert XRemoveList(r, ns) == rest;
      } else {
        XRemoveKeepsOthers(r, ns[0]);
        var p := XRemove(r, ns[0]);
        assert ([p] + rest)[0] == p && ([p] + rest)[1..] == rest;
      }
    }
  }

  /** An element one of the two removals drops. */
  predicate Dropped(n: XNode) {
    XMatches(TimestampMeta, n) || XMatches(BkpContributor, n)
  }

  /** Number of elements in the subtree that neither removal drops. */
  function OtherCount(n: XNode): nat
    decreases n
  {
    match n
    case XElement(_, _, _, cs) => (if Dropped(n) then 0 else 1) + OtherCountList(cs)
    case XData(_) => 0
  }

  function OtherCountList(ns: seq<XNode>): nat
    decreases ns
  {
    if |ns| == 0 then 0 else OtherCount(ns[0]) + OtherCountList(ns[1..])
  }

  lemma {:induction false} DataOnlyUntouched(r: XRule, ids: seq<string>, ns: seq<XNode>)
    requires forall i :: 0 <= i < |ns| ==> ns[i].XData?
    ensures MarkAnyList(ns, ids) == ns && XRemoveList(r, ns) == ns && OtherCountList(ns) == 0
    decreases ns
  {
    if |ns| > 0 {
      DataOnlyUntouched(r, ids, ns[1..]);
      assert ns == [ns[0]] + ns[1..];
    }
  }

  /** The cover mark writes only `properties`, which neither removal reads. */
  lemma MarkAnyKeepsMatch(r: XRule, n: XNode, ids: seq<string>)
    ensures XMatches(r, MarkAny(n, ids)) == XMatches(r, n)
  {
    if n.XElement? {
      CreateAttrKeepsOthers(n.attrs, "properties", "cover-image", "name", "calibre:timestamp");
      CreateAttrKeepsOthers(n.attrs, "properties", "cover-image", "role", "bkp");
    }
  }

  /** Marking the cover drops no element from the count and keeps the
      removals' matches leaves. */
  lemma {:induction false} MarkAnyKeepsOthers(r: XRule, n: XNode, ids: seq<string>)
    ensures OtherCount(MarkAny(n, ids)) == OtherCount(n)
    ensures MatchesAreLeaves(r, n) ==> MatchesAreLeaves(r, MarkAny(n, ids))
    decreases n
  {
    match n
    case XElement(_, _, _, cs) =>
      MarkAnyListKeepsOthers(r, cs, ids);
      MarkAnyKeepsMatch(r, n, ids);
      MarkAnyKeepsMatch(TimestampMeta, n, ids);
      MarkAnyKeepsMatch(BkpContributor, n, ids);
      if XMatches(r, n) && MatchesAreLeaves(r, n) {
        DataOnlyUntouched(r, ids, cs);
      }
    case XData(_) =>
  }

  lemma {:induction false} MarkAnyListKeepsOthers(r: XRule, ns: seq<XNode>, ids: seq<string>)
    ensures OtherCountList(MarkAnyList(ns, ids)) == OtherCountList(ns)
    ensures MatchesAreLeavesList(r, ns) ==> MatchesAreLeavesList(r, MarkAnyList(ns, ids))
    decreases ns
  {
    if |ns| > 0 {
      MarkAnyKeepsOthers(r, ns[0], ids);
      MarkAnyListKeepsOthers(r, ns[1..], ids);
      var m := MarkAnyList(ns, ids);
      assert m[0] == MarkAny(ns[0], ids) && m[1..] == MarkAnyList(ns[1..], ids);
    }
  }

  /** A removal keeps the other rule's matches leaves. */
  lemma {:induction false} XRemoveKeepsLeaves(r: XRule, r': XRule, n: XNode)
    requires MatchesAreLeaves(r', n)
    ensures MatchesAreLeaves(r', XRemove(r, n))
    decreases n
  {
    match n
    case XElement(_, _, _, cs) =>
      XRemoveListKeepsLeaves(r, r', cs);
      if XMatches(r', n) {
        DataOnlyUntouched(r, [], cs);
      }
    case XData(_) =>
  }

  lemma {:induction false} XRemoveListKeepsLeaves(r: XRule, r': XRule, ns: seq<XNode>)
    requires MatchesAreLeavesList(r', ns)
    ensures MatchesAreLeavesList(r', XRemoveList(r, ns))
    decreases ns
  {
    if |ns| > 0 {
      XRemoveListKeepsLeaves(r, r', ns[1..]);
      var rest := XRemoveList(r, ns[1..]);
      if XMatches(r, ns[0]) {
        assert XRemoveList(r, ns) == rest;
      } else {
        XRemoveKeepsLeaves(r, r', ns[0]);
        var p := XRemove(r, ns[0]);
        assert ([p] + rest)[0] == p && ([p] + rest)[1..] == rest;
      }
    }
  }

  /** Either removal keeps every element that neither rule drops. */
  lemma {:induction false} XRemoveKeepsOtherCount(r: XRule, n: XNode)
    requires !XMatches(r, n) && MatchesAreLeaves(r, n)
    ensures OtherCount(XRemove(r, n)) == OtherCount(n)
    decreases n
  {
    match n
    case XElement(_, _, _, cs) => XRemoveListKeepsOtherCount(r, cs);
    case XData(_) =>
  }

  lemma {:induction false} XRemoveListKeepsOtherCount(r: XRule, ns: seq<XNode>)
    requires MatchesAreLeavesList(r, ns)
    ensures OtherCountList(XRemoveList(r, ns)) == OtherCountList(ns)
    decreases ns
  {
    if |ns| > 0 {
      XRemoveListKeepsOtherCount(r, ns[1..]);
      var rest := XRemoveList(r, ns[1..]);
      if XMatches(r, ns[0]) {
        DataOnlyUntouched(r, [], ns[0].children);
        assert Dropped(ns[0]);
        assert XRemoveList(r, ns) == rest;
      } else {
        XRemoveKeepsOtherCount(r, ns[0]);
        var p := XRemove(r, ns[0]);
        assert ([p] + rest)[0] == p && ([p] + rest)[1..] == rest;
      }
    }
  }

  /** The whole chain (marking, then both removals) drops only the matches
      of the two rules, when those matches are leaves. */
  lemma RemovalsKeepOthers(ns: seq<XNode>, ids: seq<string>)
    ensures MatchesAreLeavesList(TimestampMeta, ns) && MatchesAreLeavesList(BkpContributor, ns) ==>
              OtherCountList(XRemoveList(BkpContributor, XRemoveList(TimestampMeta, MarkCovers(ns, ids))))
              == OtherCountList(ns)
  {
    if MatchesAreLeavesList(TimestampMeta, ns) && MatchesAreLeavesList(BkpContributor, ns) {
      MarkCoversIsMarkAny(ns, ids);
      var marked := MarkAnyList(ns, ids);
      MarkAnyListKeepsOthers(TimestampMeta, ns, ids);
      MarkAnyListKeepsOthers(BkpContributor, ns, ids);
      XRemoveListKeepsOtherCount(TimestampMeta, marked);
      XRemoveListKeepsLeaves(TimestampMeta, BkpContributor, marked);
      XRemoveListKeepsOtherCount(BkpContributor, XRemoveList(TimestampMeta, marked));
    }
  }

  // ---------------------------------------------------------------------------
  // processOPF

  /** Marks the cover, then drops the timestamp and the book producer. */
  function ProcessOpf(d: OpfDocument): (r: OpfDocument)
    ensures XNoneMatchList(TimestampMeta, r.roots)
    ensures XNoneMatchList(BkpContributor, r.roots)
    ensures CoverMarkedList(r.roots, CoverIdsList(d.roots))
    ensures MatchesAreLeavesList(TimestampMeta, d.roots) && MatchesAreLeavesList(BkpContributor, d.roots) ==>
              OtherCountList(r.roots) == OtherCountList(d.roots)
  {
    var ids := CoverIdsList(d.roots);
    var marked := MarkCovers(d.roots, ids);
    var r1 := XRemoveList(TimestampMeta, marked);
    var r2 := XRemoveList(BkpContributor, r1);
    MarkCoversIsMarkAny(d.roots, ids);
    MarkAnyListSound(d.roots, ids);
    XRemoveListSound(TimestampMeta, BkpContributor, ids, marked);
    XRemoveListSound(BkpContributor, TimestampMeta, ids, r1);
    RemovalsKeepOthers(d.roots, ids);
    OpfDocument(r2)
  }
}

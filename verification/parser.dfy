/**
 * `domToJson`: the recursive projection of a parsed DOM node onto the
 * `SVGNode` record, and `parserSVG`, which applies it to the document element.
 */
module Parser {
  import opened Wrappers
  import opened JsString
  import opened Dom
  import opened Types

  /** The attribute map built by assigning each attribute in list order, so the last one of a name wins. */
  function AttributeMap(attrs: seq<Attr>): (m: map<string, string>)
    ensures m.Keys == Names(attrs)
    ensures forall i :: 0 <= i < |attrs| && IsLastOfName(attrs, i) ==> m[attrs[i].name] == attrs[i].value
    decreases |attrs|
  {
    if attrs == [] then map[]
    else
      var init := attrs[..|attrs| - 1];
      var last := attrs[|attrs| - 1];
      NamesSnoc(attrs);
      LastOfNameSnoc(attrs);
      AttributeMap(init)[last.name := last.value]
  }

  /** The names of a non-empty list: those of all but the last entry, plus the last one's. */
  lemma NamesSnoc(attrs: seq<Attr>)
    requires attrs != []
    ensures Names(attrs) == Names(attrs[..|attrs| - 1]) + {attrs[|attrs| - 1].name}
  {
    var init := attrs[..|attrs| - 1];
    assert forall i :: 0 <= i < |init| ==> init[i] == attrs[i];
  }

  /** An entry that is last of its name stays so when the final entry is removed. */
  lemma LastOfNameSnoc(attrs: seq<Attr>)
    requires attrs != []
    ensures forall i :: 0 <= i < |attrs| - 1 && IsLastOfName(attrs, i) ==> IsLastOfName(attrs[..|attrs| - 1], i)
  {
  }

  /** No two attributes share a name, as in any well-formed XML element. */
  predicate DistinctNames(attrs: seq<Attr>) {
    forall i, j :: 0 <= i < j < |attrs| ==> attrs[i].name != attrs[j].name
  }

  /** With distinct names every attribute appears in the map, verbatim, and the map has one entry per attribute. */
  lemma {:induction false} AttributeMapDistinct(attrs: seq<Attr>)
    requires DistinctNames(attrs)
    ensures forall i :: 0 <= i < |attrs| ==> AttributeMap(attrs)[attrs[i].name] == attrs[i].value
    ensures |AttributeMap(attrs)| == |attrs|
    decreases |attrs|
  {
    if attrs != [] {
      var init := attrs[..|attrs| - 1];
      var last := attrs[|attrs| - 1];
      assert DistinctNames(init);
      AttributeMapDistinct(init);
      NamesSnoc(attrs);
      assert last.name !in Names(init);
      assert |AttributeMap(attrs).Keys| == |Names(init)| + 1;
    }
  }

  /** A projected text node. */
  function TextNode(content: string): SvgNode {
    SvgNode(TextType, None, None, Absent, Some(content), None)
  }

  /** The nodes `domToJson` keeps: elements, and text that is not all whitespace. */
  predicate Significant(n: DomNode) {
    n.Element? || (n.Text? && !AllWs(n.data))
  }

  /**
   * `domToJson`. Text is trimmed and dropped when nothing is left; an element
   * keeps its lower-cased tag name, its attributes and its projected children;
   * every other node kind (CDATA, comment, anything else) projects to null.
   */
  function DomToJson(n: DomNode): (r: Option<SvgNode>)
    ensures r.Some? <==> Significant(n)
    ensures r.Some? ==> WellFormed(r.value) && Types.Depth(r.value) <= Dom.Depth(n)
    decreases n
  {
    match n
    case Text(data) =>
      var content := Trim(data);
      if content == [] then None else Some(TextNode(content))
    case Element(tagName, attrs, childNodes) =>
      var kids := ProjectChildren(childNodes);
      MaxDepthBound(kids, Dom.MaxDepth(childNodes));
      Some(SvgNode(ElementType, Some(ToLowerCase(tagName)), Some(AttributeMap(attrs)),
                   if kids == [] then Absent else Present(kids), None, None))
    case _ => None
  }

  /** The non-null projections of `cs`, in order. */
  function ProjectChildren(cs: seq<DomNode>): (r: seq<SvgNode>)
    ensures |r| <= |cs|
    ensures r == [] <==> forall i :: 0 <= i < |cs| ==> !Significant(cs[i])
    ensures forall k :: 0 <= k < |r| ==> WellFormed(r[k]) && Types.Depth(r[k]) <= Dom.MaxDepth(cs)
    decreases cs
  {
    if cs == [] then []
    else
      var rest := ProjectChildren(cs[1..]);
      match DomToJson(cs[0])
      case Some(o) => [o] + rest
      case None => rest
  }

  /** The kinds of node that never produce output: CDATA, comments and anything else. */
  predicate Ignorable(n: DomNode) {
    n.CData? || n.Comment? || n.Other?
  }

  /** The tree with every ignorable node removed, at every level. */
  function StripIgnorable(n: DomNode): DomNode
    decreases n
  {
    match n
    case Element(t, a, cs) => Element(t, a, StripIgnorableList(cs))
    case _ => n
  }

  function StripIgnorableList(cs: seq<DomNode>): (r: seq<DomNode>)
    ensures forall i :: 0 <= i < |r| ==> !Ignorable(r[i])
    decreases cs
  {
    if cs == [] then []
    else if Ignorable(cs[0]) then StripIgnorableList(cs[1..])
    else [StripIgnorable(cs[0])] + StripIgnorableList(cs[1..])
  }

  /** Text projection: whitespace-only text gives null, other text gives its trimmed slice. */
  lemma TextProjection(s: string)
    ensures DomToJson(Text(s)).None? <==> AllWs(s)
    ensures forall i, j :: WsMargins(s, i, j) && i < j && !IsWs(s[i]) && !IsWs(s[j - 1])
              ==> DomToJson(Text(s)) == Some(TextNode(s[i..j]))
  {
    forall i, j | WsMargins(s, i, j) && i < j && !IsWs(s[i]) && !IsWs(s[j - 1])
      ensures DomToJson(Text(s)) == Some(TextNode(s[i..j]))
    {
      TrimUnique(s, i, j);
    }
  }

  /**
   * Element projection: never null; the tag name is the source name in lower
   * case; the attribute map has exactly the source names, each bound to the
   * value of its last occurrence; `children` is absent exactly when no child
   * projects, and otherwise lists the non-null child projections.
   */
  lemma ElementProjection(t: string, a: seq<Attr>, cs: seq<DomNode>)
    ensures DomToJson(Element(t, a, cs)).Some?
    ensures var o := DomToJson(Element(t, a, cs)).value;
      && o.kind == ElementType
      && o.tagName.Some? && EqualIgnoringAsciiCase(o.tagName.value, t) && NoAsciiUpper(o.tagName.value)
      && o.attributes.Some? && o.attributes.value.Keys == Names(a)
      && (forall i :: 0 <= i < |a| && IsLastOfName(a, i) ==> o.attributes.value[a[i].name] == a[i].value)
      && (o.children.Absent? <==> forall i :: 0 <= i < |cs| ==> DomToJson(cs[i]).None?)
      && (o.children.Present? ==> o.children.nodes == ProjectChildren(cs) && |o.children.nodes| > 0)
  {
  }

  /** Projecting children distributes over concatenation of the child list. */
  lemma {:induction false} ProjectChildrenAppend(a: seq<DomNode>, b: seq<DomNode>)
    ensures ProjectChildren(a + b) == ProjectChildren(a) + ProjectChildren(b)
    decreases a
  {
    if a != [] {
      assert (a + b)[0] == a[0] && (a + b)[1..] == a[1..] + b;
      ProjectChildrenAppend(a[1..], b);
    } else {
      assert a + b == b;
    }
  }

  /** The projected children are exactly the non-null projections of the child nodes. */
  lemma {:induction false} ProjectChildrenMembers(cs: seq<DomNode>)
    ensures forall o :: o in ProjectChildren(cs) <==> exists i :: 0 <= i < |cs| && DomToJson(cs[i]) == Some(o)
    decreases cs
  {
    if cs != [] {
      ProjectChildrenMembers(cs[1..]);
      forall o | (exists i :: 0 <= i < |cs[1..]| && DomToJson(cs[1..][i]) == Some(o))
        ensures exists i :: 0 <= i < |cs| && DomToJson(cs[i]) == Some(o)
      {
        var i :| 0 <= i < |cs[1..]| && DomToJson(cs[1..][i]) == Some(o);
        assert DomToJson(cs[i + 1]) == Some(o);
      }
      forall o | (exists i :: 0 <= i < |cs| && DomToJson(cs[i]) == Some(o))
        ensures o in ProjectChildren(cs)
      {
        var i :| 0 <= i < |cs| && DomToJson(cs[i]) == Some(o);
        if i > 0 {
          assert DomToJson(cs[1..][i - 1]) == Some(o);
        }
      }
    }
  }

  /** Removing comments, CDATA sections and other ignorable nodes does not change the projection. */
  lemma {:induction false} StripIgnorablePreserves(n: DomNode)
    ensures DomToJson(StripIgnorable(n)) == DomToJson(n)
    decreases n
  {
    if n.Element? {
      StripIgnorableListPreserves(n.childNodes);
    }
  }

  /** The same for a child list: dropping its ignorable members leaves its projection unchanged. */
  lemma {:induction false} StripIgnorableListPreserves(cs: seq<DomNode>)
    ensures ProjectChildren(StripIgnorableList(cs)) == ProjectChildren(cs)
    decreases cs
  {
    if cs != [] {
      StripIgnorableListPreserves(cs[1..]);
      if !Ignorable(cs[0]) {
        StripIgnorablePreserves(cs[0]);
        ProjectChildrenAppend([StripIgnorable(cs[0])], StripIgnorableList(cs[1..]));
      }
    }
  }

  /** `parserSVG` on the parser's document element: always an element node of the output shape. */
  function ParserSvg(documentElement: DomNode): (r: Option<SvgNode>)
    requires documentElement.Element?
    ensures r.Some? && r.value.kind == ElementType && WellFormed(r.value)
    ensures r.value.tagName == Some(ToLowerCase(documentElement.tagName))
  {
    DomToJson(documentElement)
  }

  /** The attribute loop: one map assignment per attribute, in list order. */
  method CollectAttributes(attrs: seq<Attr>) returns (m: map<string, string>)
    ensures m == AttributeMap(attrs)
  {
    m := map[];
    var i := 0;
    while i < |attrs|
      invariant 0 <= i <= |attrs|
      invariant m == AttributeMap(attrs[..i])
    {
      assert attrs[..i + 1][..i] == attrs[..i];
      m := m[attrs[i].name := attrs[i].value];
      i := i + 1;
    }
    assert attrs[..|attrs|] == attrs;
  }

  /** One step of the child loop: the projection of one more child is appended, if any. */
  lemma ProjectChildrenSnoc(cs: seq<DomNode>, i: nat)
    requires i < |cs|
    ensures ProjectChildren(cs[..i + 1])
         == ProjectChildren(cs[..i]) + (if DomToJson(cs[i]).Some? then [DomToJson(cs[i]).value] else [])
  {
    assert cs[..i + 1] == cs[..i] + [cs[i]];
    ProjectChildrenAppend(cs[..i], [cs[i]]);
  }

  /** The child loop: project each child node and push the non-null results. */
  method CollectChildren(childNodes: seq<DomNode>) returns (kids: seq<SvgNode>)
    ensures kids == ProjectChildren(childNodes)
  {
    kids := [];
    var i := 0;
    while i < |childNodes|
      invariant 0 <= i <= |childNodes|
      invariant kids == ProjectChildren(childNodes[..i])
    {
      ProjectChildrenSnoc(childNodes, i);
      var childRes := DomToJson(childNodes[i]);
      if childRes.Some? {
        kids := kids + [childRes.value];
      }
      i := i + 1;
    }
    assert childNodes[..|childNodes|] == childNodes;
  }

  /**
   * The element branch as the source writes it: start from an empty attribute
   * map and an empty child list, fill both, and delete `children` if it stayed
   * empty. It agrees with the structural projection.
   */
  method ProjectElement(tagName: string, attrs: seq<Attr>, childNodes: seq<DomNode>) returns (result: SvgNode)
    ensures DomToJson(Element(tagName, attrs, childNodes)) == Some(result)
    ensures WellFormed(result) && result.kind == ElementType
  {
    var attributes := CollectAttributes(attrs);
    var kids := CollectChildren(childNodes);
    result := SvgNode(ElementType, Some(ToLowerCase(tagName)), Some(attributes), Present(kids), None, None);
    if |result.children.nodes| == 0 {
      result := result.(children := Absent);
    }
  }

  /**
   * A child that is a comment, a CDATA section, another ignorable node or
   * whitespace-only text can be removed from anywhere in an element's child
   * list without changing the element's projection.
   */
  lemma InsignificantChildIgnored(t: string, a: seq<Attr>, xs: seq<DomNode>, n: DomNode, ys: seq<DomNode>)
    requires !Significant(n)
    ensures DomToJson(Element(t, a, xs + [n] + ys)) == DomToJson(Element(t, a, xs + ys))
  {
    ProjectChildrenAppend(xs + [n], ys);
    ProjectChildrenAppend(xs, [n]);
    assert ProjectChildren([n]) == [];
    assert ProjectChildren(xs) + [] == ProjectChildren(xs);
    ProjectChildrenAppend(xs, ys);
  }

  /** A CDATA section is dropped, so the `style` element it sat in has no `children` field. */
  lemma CDataExample()
    ensures DomToJson(Element("style", [], [CData("circle { fill: red; }")]))
         == Some(SvgNode(ElementType, Some("style"), Some(map[]), Absent, None, None))
  {
    ToLowerCaseFixpoint("style");
  }

  /** Tag names are lower-cased: `foreignObject` becomes `foreignobject`. */
  lemma LowerCaseExample()
    ensures DomToJson(Element("foreignObject", [], [])).value.tagName == Some("foreignobject")
  {
    ToLowerCaseUnique("foreignObject", "foreignobject");
  }
}

/**
 * The output record `SVGNode`: every field except the node type is optional,
 * exactly as the interface declares it. The `cdata` variant and the
 * `cdataContent` field are declared but, as the invariant below states, the
 * projection never produces them.
 */
module Types {
  import opened Wrappers
  import opened JsString

  datatype NodeType = ElementType | TextType | CDataType

  datatype SvgNode = SvgNode(
    kind: NodeType,
    tagName: Option<string>,
    attributes: Option<map<string, string>>,
    children: Children,
    content: Option<string>,
    cdataContent: Option<string>)

  /** The optional `children` field, which the projection deletes when empty. */
  datatype Children = Absent | Present(nodes: seq<SvgNode>)

  /** A text record: only `type` and `content` are set. */
  predicate IsTextShape(o: SvgNode) {
    && o.kind == TextType
    && o.tagName.None? && o.attributes.None? && o.children.Absent? && o.cdataContent.None?
    && o.content.Some?
  }

  /** The content of a text record is trimmed text that is not empty. */
  predicate IsTrimmedText(s: string) {
    s != [] && !IsWs(s[0]) && !IsWs(s[|s| - 1])
  }

  /**
   * The shape every projected node has: it is an element or a text node; a
   * text node has non-empty trimmed content and nothing else; an element has a
   * lower-case tag name and an attribute map, no content, and a `children`
   * field that is either absent or a non-empty list of such nodes.
   */
  predicate WellFormed(o: SvgNode)
    decreases o
  {
    match o.kind
    case TextType => IsTextShape(o) && IsTrimmedText(o.content.value)
    case ElementType =>
      && o.tagName.Some? && NoAsciiUpper(o.tagName.value)
      && o.attributes.Some?
      && o.content.None? && o.cdataContent.None?
      && (o.children.Present? ==>
            && |o.children.nodes| > 0
            && forall i :: 0 <= i < |o.children.nodes| ==> WellFormed(o.children.nodes[i]))
    case CDataType => false
  }

  /** Number of node levels: a node without children counts 1. */
  function Depth(o: SvgNode): nat
    decreases o
  {
    1 + ChildrenDepth(o.children)
  }

  function ChildrenDepth(c: Children): nat
    decreases c
  {
    match c
    case Absent => 0
    case Present(cs) => MaxDepth(cs)
  }

  function MaxDepth(cs: seq<SvgNode>): nat
    decreases cs
  {
    if cs == [] then 0
    else
      var d := Depth(cs[0]);
      var e := MaxDepth(cs[1..]);
      if d < e then e else d
  }

  /** A list's depth is bounded by any bound on its members' depths. */
  lemma {:induction false} MaxDepthBound(cs: seq<SvgNode>, d: nat)
    requires forall k :: 0 <= k < |cs| ==> Depth(cs[k]) <= d
    ensures MaxDepth(cs) <= d
    decreases cs
  {
    if cs != [] {
      MaxDepthBound(cs[1..], d);
    }
  }
}

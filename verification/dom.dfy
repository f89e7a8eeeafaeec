/**
 * The already-parsed DOM tree the projection walks. The external XML parser
 * is not modelled; its output is given as a value of `DomNode`, with the node
 * kinds the projection can meet.
 */
module Dom {

  /** One entry of `element.attributes`: a qualified name and its value. */
  datatype Attr = Attr(name: string, value: string)

  datatype DomNode =
    | Element(tagName: string, attributes: seq<Attr>, childNodes: seq<DomNode>)
    | Text(data: string)
    | CData(data: string)
    | Comment(data: string)
    | Other

  /** The names occurring in an attribute list. */
  function Names(attrs: seq<Attr>): set<string> {
    set i | 0 <= i < |attrs| :: attrs[i].name
  }

  /** `attrs[i]` is the last attribute in `attrs` with its name. */
  predicate IsLastOfName(attrs: seq<Attr>, i: int)
    requires 0 <= i < |attrs|
  {
    forall j :: i < j < |attrs| ==> attrs[j].name != attrs[i].name
  }

  /** Number of node levels: a leaf counts 1. */
  function Depth(n: DomNode): nat
    decreases n
  {
    match n
    case Element(_, _, cs) => 1 + MaxDepth(cs)
    case _ => 1
  }

  function MaxDepth(cs: seq<DomNode>): nat
    decreases cs
  {
    if cs == [] then 0
    else
      var d := Depth(cs[0]);
      var e := MaxDepth(cs[1..]);
      if d < e then e else d
  }
}

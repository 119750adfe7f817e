/** The part of the XML DOM the client reads: elements with qualified names,
    attributes, direct text and child elements. */
module XmlTree {
  import opened Wrappers
  import opened Text

  /** An element; `name` is the qualified name (`d:Name`, `m:properties`) that
      `XmlElement.Name` reports, `text` the element's own character data. */
  datatype Element = Element(name: Str, attrs: map<Str, Str>, text: Str, children: seq<Element>)

  /** `InnerText`: the element's text followed by its descendants' text in
      document order. */
  function InnerText(e: Element): Str
    decreases e, 1
  {
    e.text + ChildrenText(e, |e.children|)
  }

  function ChildrenText(e: Element, n: nat): Str
    requires n <= |e.children|
    decreases e, 0, n
  {
    if n == 0 then [] else ChildrenText(e, n - 1) + InnerText(e.children[n - 1])
  }

  predicate HasAttr(e: Element, a: Str) {
    a in e.attrs
  }

  /** `GetAttribute(a)`: the value, or the empty string when absent. */
  function Attr(e: Element, a: Str): (r: Str)
    ensures a !in e.attrs ==> r == []
  {
    if a in e.attrs then e.attrs[a] else []
  }

  /** The indexer `e[name]`: the first child element with that name. */
  function FirstChild(e: Element, name: Str): (r: Option<Element>)
    ensures r.Some? ==> r.value in e.children && r.value.name == name
    ensures r.None? <==> forall i | 0 <= i < |e.children| :: e.children[i].name != name
  {
    match FirstIndex(e.children, name)
    case None => None
    case Some(i) => Some(e.children[i])
  }

  /** The position of the first element named `name`. */
  function FirstIndex(cs: seq<Element>, name: Str): (r: Option<nat>)
    ensures r.Some? ==> r.value < |cs| && cs[r.value].name == name
    ensures r.Some? ==> forall j | 0 <= j < r.value :: cs[j].name != name
    ensures r.None? <==> forall i | 0 <= i < |cs| :: cs[i].name != name
    decreases |cs|
  {
    if cs == [] then None
    else if cs[0].name == name then Some(0)
    else match FirstIndex(cs[1..], name)
      case None => None
      case Some(i) => Some(i + 1)
  }

  /** The number of elements named `name` in the tree rooted at `e`, the root
      included (`GetElementsByTagName(name).Count` on a document). */
  function CountNamed(e: Element, name: Str): nat
    decreases e, 1
  {
    (if e.name == name then 1 else 0) + CountNamedIn(e, name, |e.children|)
  }

  function CountNamedIn(e: Element, name: Str, n: nat): nat
    requires n <= |e.children|
    decreases e, 0, n
  {
    if n == 0 then 0 else CountNamedIn(e, name, n - 1) + CountNamed(e.children[n - 1], name)
  }
}
